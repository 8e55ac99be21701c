/**
 * The string helpers of shared/util.c that rewrite module names and aliases.
 *
 * A C string appears in two forms. A buffer the caller hands over to be
 * rewritten in place is an array<char> holding a NUL somewhere. A read-only
 * argument is the string of characters before its NUL (a string without a
 * NUL in it); reading one past its end yields the NUL.
 */
module UtilStrings {
  import opened Wrappers

  const PATH_MAX: nat := 4096
  /** The longest string a PATH_MAX buffer holds: its last slot is kept for the NUL. */
  const MAX_LEN: nat := PATH_MAX - 1
  const EINVAL: int := 22

  /** strlen: the index of the first NUL. */
  function StrLen(s: seq<char>): (n: nat)
    requires '\0' in s
    ensures n < |s| && s[n] == '\0'
    ensures forall j :: 0 <= j < n ==> s[j] != '\0'
  {
    if s[0] == '\0' then 0
    else
      assert '\0' in s[1..] by {
        var j :| 0 <= j < |s| && s[j] == '\0';
        assert s[1..][j - 1] == '\0';
      }
      1 + StrLen(s[1..])
  }

  /** s[i] for a read-only string, the terminating NUL at and past its end. */
  function At(s: string, i: nat): (c: char)
    ensures c == '\0' <==> i >= |s| || s[i] == '\0'
  {
    if i < |s| then s[i] else '\0'
  }

  /** The one character rewrite every helper here applies: '-' becomes '_'. */
  function Underscore(c: char): char {
    if c == '-' then '_' else c
  }

  // ---------------------------------------------------------------------
  // strchr_replace

  /** Every c in s replaced by r, one character at a time. */
  function ReplaceAll(s: string, c: char, r: char): (t: string)
    ensures |t| == |s|
    ensures forall j :: 0 <= j < |s| ==> t[j] == (if s[j] == c then r else s[j])
    ensures c != r ==> c !in t
  {
    if s == [] then [] else [if s[0] == c then r else s[0]] + ReplaceAll(s[1..], c, r)
  }

  /** Rewriting twice changes nothing more. */
  lemma ReplaceAllIdempotent(s: string, c: char, r: char)
    ensures ReplaceAll(ReplaceAll(s, c, r), c, r) == ReplaceAll(s, c, r)
  {
    var t := ReplaceAll(s, c, r);
    var u := ReplaceAll(t, c, r);
    forall j | 0 <= j < |s| ensures u[j] == t[j] {
      assert t[j] == (if s[j] == c then r else s[j]);
    }
  }

  /**
   * strchr_replace: every c before the terminating NUL becomes r, in place;
   * the NUL and everything after it are untouched, and s is returned.
   */
  method StrchrReplace(s: array<char>, c: char, r: char) returns (p: array<char>)
    requires '\0' in s[..]
    modifies s
    ensures p == s
    ensures var n := old(StrLen(s[..]));
      s[..] == ReplaceAll(old(s[..n]), c, r) + old(s[n..])
  {
    ghost var n := StrLen(s[..]);
    ghost var a := s[..];
    var i := 0;
    while s[i] != '\0'
      invariant 0 <= i <= n
      invariant forall j :: 0 <= j < i ==> s[j] == if a[j] == c then r else a[j]
      invariant forall j :: i <= j < s.Length ==> s[j] == a[j]
      decreases n - i
    {
      if s[i] == c {
        s[i] := r;
      }
      i := i + 1;
    }
    ghost var t := ReplaceAll(a[..n], c, r);
    assert s[..] == t + a[n..] by {
      assert forall j :: 0 <= j < n ==> t[j] == if a[j] == c then r else a[j];
    }
    p := s;
  }

  // ---------------------------------------------------------------------
  // underscores and alias_normalize share the alias grammar: a character
  // other than a bracket, or a range "[...]" closed by the first ']'.

  /**
   * i + strcspn(&s[i], "]"): the first index from i holding ']' or the NUL
   * that ends a C string, or |s| when there is none.
   */
  function Span(s: seq<char>, i: nat): (k: nat)
    requires i <= |s|
    ensures i <= k <= |s|
    ensures k < |s| ==> s[k] == ']' || s[k] == '\0'
    ensures forall j :: i <= j < k ==> s[j] != ']' && s[j] != '\0'
    decreases |s| - i
  {
    if i == |s| || s[i] == ']' || s[i] == '\0' then i else Span(s, i + 1)
  }

  /** The first index from i holding ']' or NUL (or the end) is Span's. */
  lemma SpanUnique(s: seq<char>, i: nat, k: nat)
    requires i <= k <= |s|
    requires k < |s| ==> s[k] == ']' || s[k] == '\0'
    requires forall j :: i <= j < k ==> s[j] != ']' && s[j] != '\0'
    ensures Span(s, i) == k
  {
  }

  /** Span measures up to the first NUL, at n, so what follows it is irrelevant. */
  lemma SpanStopsAtNul(s: seq<char>, n: nat, i: nat)
    requires n < |s| && s[n] == '\0' && i <= n
    requires forall j :: 0 <= j < n ==> s[j] != '\0'
    ensures Span(s, i) == Span(s[..n], i)
  {
    var k := Span(s[..n], i);
    assert k < n ==> s[..n][k] == s[k];
    assert forall j :: i <= j < k ==> s[..n][j] == s[j];
    SpanUnique(s, i, k);
  }

  /** The outcome of rewriting an alias: success, and the text written so far. */
  datatype Rewrite = Rewrite(ok: bool, text: string)

  /** Characters already written, followed by the rewrite of the rest. */
  function Then(done: string, rest: Rewrite): Rewrite {
    Rewrite(rest.ok, done + rest.text)
  }

  lemma ThenThen(done: string, token: string, rest: Rewrite)
    ensures Then(done, Then(token, rest)) == Then(done + token, rest)
  {
    assert done + (token + rest.text) == (done + token) + rest.text;
  }

  /**
   * The alias rewrite of s from index i: '-' becomes '_' outside ranges, a
   * range "[...]" is kept as it is, and a stray ']' or a '[' without its
   * ']' fails. On a failure the text holds what was rewritten before the
   * offending token.
   */
  function Normalize(s: string, i: nat): (w: Rewrite)
    requires '\0' !in s && i <= |s|
    ensures |w.text| <= |s| - i
    ensures w.ok ==> |w.text| == |s| - i
    decreases |s| - i
  {
    if i == |s| then Rewrite(true, [])
    else if s[i] == ']' then Rewrite(false, [])
    else if s[i] == '[' then
      var k := Span(s, i);
      if k == |s| then Rewrite(false, []) else Then(s[i..k + 1], Normalize(s, k + 1))
    else Then([Underscore(s[i])], Normalize(s, i + 1))
  }

  /** t is s from i on, with some '-' turned into '_'. */
  ghost predicate DashesOnly(s: string, i: nat, t: string) {
    i + |t| <= |s| && forall j :: 0 <= j < |t| ==> t[j] == s[i + j] || (s[i + j] == '-' && t[j] == '_')
  }

  /** The rewrite only turns some '-' into '_'. */
  lemma {:induction false} NormalizeShape(s: string, i: nat)
    requires '\0' !in s && i <= |s|
    ensures DashesOnly(s, i, Normalize(s, i).text)
    decreases |s| - i
  {
    if i < |s| && s[i] != ']' {
      if s[i] == '[' {
        var e := RangeTake(s, i);
        if e < |s| {
          NormalizeShape(s, e + 1);
          DashesSlice(s, i, e + 1);
          DashesConcat(s, i, e + 1, s[i..e + 1], Normalize(s, e + 1).text);
        }
      } else {
        NormalizeStep(s, i);
        NormalizeShape(s, i + 1);
        DashesConcat(s, i, i + 1, [Underscore(s[i])], Normalize(s, i + 1).text);
      }
    }
  }

  /** A slice of s is s from its start on, unchanged. */
  lemma DashesSlice(s: string, i: nat, e: nat)
    requires i <= e <= |s|
    ensures DashesOnly(s, i, s[i..e])
  {
  }

  /** Two pieces that each only turn some '-' into '_' make one. */
  lemma DashesConcat(s: string, i: nat, k: nat, u: string, rest: string)
    requires i + |u| == k && DashesOnly(s, i, u) && DashesOnly(s, k, rest)
    ensures DashesOnly(s, i, u + rest)
  {
    var t := u + rest;
    forall j | 0 <= j < |t| ensures t[j] == s[i + j] || (s[i + j] == '-' && t[j] == '_') {
      if j >= |u| {
        assert t[j] == rest[j - |u|];
      }
    }
  }

  /** Index j of s lies inside a range: after a '[' with no ']' between them. */
  ghost predicate InBrackets(s: string, j: nat) {
    exists i :: 0 <= i <= j < |s| && s[i] == '[' && forall m :: i <= m < j ==> s[m] != ']'
  }

  /** Every '[' before k is closed by a ']' before k. */
  ghost predicate Closed(s: string, k: nat) {
    k <= |s| && forall i :: 0 <= i < k && s[i] == '[' ==> exists m :: i <= m < k && s[m] == ']'
  }

  /**
   * What underscores promises, character by character: in the rewritten
   * text a '-' outside every range has become '_', and every other
   * character, a '-' inside a range included, is as it was.
   */
  lemma NormalizeDashes(s: string, j: nat)
    requires '\0' !in s && j < |Normalize(s, 0).text|
    ensures Normalize(s, 0).text[j] == if s[j] == '-' && !InBrackets(s, j) then '_' else s[j]
  {
    NormalizeDashesFrom(s, 0, j);
  }

  /** NormalizeDashes for the rewrite from a token boundary k. */
  lemma {:induction false} NormalizeDashesFrom(s: string, k: nat, j: nat)
    requires '\0' !in s && k <= j && k <= |s| && Closed(s, k) && j - k < |Normalize(s, k).text|
    ensures Normalize(s, k).text[j - k] == if s[j] == '-' && !InBrackets(s, j) then '_' else s[j]
    decreases |s| - k
  {
    NormalizeStep(s, k);
    if s[k] == '[' {
      var e := RangeTake(s, k);
      var rest := Normalize(s, e + 1);
      assert e < |s| && s[e] == ']';
      if j <= e {
        RangeKept(s, k, e, j);
      } else {
        ClosedRange(s, k, e);
        NormalizeDashesFrom(s, e + 1, j);
        assert Normalize(s, k).text[j - k] == rest.text[j - (e + 1)];
      }
    } else if j == k {
      NotInBrackets(s, k);
    } else {
      ClosedChar(s, k);
      NormalizeDashesFrom(s, k + 1, j);
    }
  }

  /** Inside the range from the '[' at k to its ']' at e, nothing is rewritten. */
  lemma RangeKept(s: string, k: nat, e: nat, j: nat)
    requires '\0' !in s && k <= j <= e < |s| && s[k] == '[' && e == Span(s, k)
    ensures Then(s[k..e + 1], Normalize(s, e + 1)).text[j - k] == s[j]
    ensures s[j] == '-' ==> InBrackets(s, j)
  {
    assert s[k..e + 1][j - k] == s[j];
    if s[j] == '-' {
      assert s[k] == '[' && forall m :: k <= m < j ==> s[m] != ']';
    }
  }

  /** A range closed at e keeps every '[' before e + 1 closed. */
  lemma ClosedRange(s: string, k: nat, e: nat)
    requires Closed(s, k) && k <= e < |s| && s[e] == ']'
    ensures Closed(s, e + 1)
  {
    forall i | 0 <= i < e + 1 && s[i] == '[' ensures exists m :: i <= m < e + 1 && s[m] == ']' {
      if i < k {
        var m :| i <= m < k && s[m] == ']';
      } else {
        assert i <= e < e + 1 && s[e] == ']';
      }
    }
  }

  /** A character other than '[' at k keeps every '[' before k + 1 closed. */
  lemma ClosedChar(s: string, k: nat)
    requires Closed(s, k) && k < |s| && s[k] != '['
    ensures Closed(s, k + 1)
  {
    forall i | 0 <= i < k + 1 && s[i] == '[' ensures exists m :: i <= m < k + 1 && s[m] == ']' {
      var m :| i <= m < k && s[m] == ']';
    }
  }

  /** At a token boundary k not holding '[', k is outside every range. */
  lemma NotInBrackets(s: string, k: nat)
    requires Closed(s, k) && k < |s| && s[k] != '['
    ensures !InBrackets(s, k)
  {
    forall i | 0 <= i <= k && s[i] == '[' ensures exists m :: i <= m < k && s[m] == ']' {
    }
  }

  /** Without ranges, the alias rewrite is strchr_replace(s, '-', '_'). */
  lemma {:induction false} NormalizeNoRanges(s: string, i: nat)
    requires '\0' !in s && '[' !in s && ']' !in s && i <= |s|
    ensures Normalize(s, i) == Rewrite(true, ReplaceAll(s[i..], '-', '_'))
    decreases |s| - i
  {
    if i < |s| {
      NormalizeNoRanges(s, i + 1);
      assert s[i..][1..] == s[i + 1..];
    }
  }

  /** Where t agrees with the successful rewrite of s from i on, t rewrites to itself. */
  lemma {:induction false} NormalizeAgain(s: string, t: string, i: nat)
    requires '\0' !in s && '\0' !in t && i <= |s| == |t|
    requires Normalize(s, i).ok && t[i..] == Normalize(s, i).text
    ensures Normalize(t, i) == Normalize(s, i)
    decreases |s| - i
  {
    if i < |s| {
      var k, u;
      if s[i] == '[' {
        k, u := AgainRange(s, t, i);
      } else {
        k, u := AgainChar(s, t, i);
      }
      NormalizeAgain(s, t, k);
    }
  }

  /**
   * The range at i of s is copied into t unchanged, so both rewrites take
   * the same token u and go on from k.
   */
  lemma AgainRange(s: string, t: string, i: nat) returns (k: nat, u: string)
    requires '\0' !in s && '\0' !in t && i < |s| == |t| && s[i] == '['
    requires Normalize(s, i).ok && t[i..] == Normalize(s, i).text
    ensures i < k <= |s| && Normalize(s, k).ok && t[k..] == Normalize(s, k).text
    ensures Normalize(s, i) == Then(u, Normalize(s, k)) && Normalize(t, i) == Then(u, Normalize(t, k))
  {
    var e := RangeTake(s, i);
    k, u := e + 1, s[i..e + 1];
    RangeCopied(s, t, i, e, Normalize(s, k).text);
    RangeSame(s, t, i, e);
  }

  /** t holds the range of s from i to its ']' at e, and then rest. */
  lemma RangeCopied(s: string, t: string, i: nat, e: nat, rest: string)
    requires '\0' !in s && i <= e < |s| == |t| && s[i] == '[' && e == Span(s, i)
    requires t[i..] == s[i..e + 1] + rest
    ensures t[i] == '[' && Span(t, i) == e && t[i..e + 1] == s[i..e + 1]
    ensures t[e + 1..] == rest
  {
    SplitAt(t, i, s[i..e + 1], rest);
    assert t[i] == t[i..e + 1][0];
    SpanAgrees(s, t, i, e);
  }

  /** A range of t that is the range of s takes the same token. */
  lemma RangeSame(s: string, t: string, i: nat, e: nat)
    requires '\0' !in t && i <= e < |t| && e < |s| && t[i] == '[' && Span(t, i) == e
    requires t[i..e + 1] == s[i..e + 1]
    ensures Normalize(t, i) == Then(s[i..e + 1], Normalize(t, e + 1))
  {
    var e' := RangeTake(t, i);
  }

  /**
   * The range at i closes at e, when the rewrite accepts it; closed, the
   * rewrite keeps it as it is and goes on after it.
   */
  lemma RangeTake(s: string, i: nat) returns (e: nat)
    requires '\0' !in s && i < |s| && s[i] == '['
    ensures e == Span(s, i) && i <= e
    ensures Normalize(s, i).ok ==> e < |s|
    ensures e < |s| ==> Normalize(s, i) == Then(s[i..e + 1], Normalize(s, e + 1))
  {
    e := Span(s, i);
  }

  /** Where t from i on is u followed by rest, t splits into them at i + |u|. */
  lemma SplitAt(t: string, i: nat, u: string, rest: string)
    requires i <= |t| && t[i..] == u + rest
    ensures t[i..i + |u|] == u && t[i + |u|..] == rest
  {
    assert t[i..i + |u|] == t[i..][..|u|];
    assert t[i + |u|..] == t[i..][|u|..];
  }

  /** A string that agrees with s on the range from i to its ']' at e has that range too. */
  lemma SpanAgrees(s: string, t: string, i: nat, e: nat)
    requires '\0' !in s && i <= e < |s| && e < |t| && e == Span(s, i)
    requires t[i..e + 1] == s[i..e + 1]
    ensures Span(t, i) == e
  {
    forall j | i <= j <= e ensures t[j] == s[j] {
      assert t[j] == t[i..e + 1][j - i];
    }
    SpanUnique(t, i, e);
  }

  /**
   * The character at i of s, rewritten, is the character at i of t, whose
   * rewrite is itself, so both rewrites take the same token u and go on
   * from k.
   */
  lemma AgainChar(s: string, t: string, i: nat) returns (k: nat, u: string)
    requires '\0' !in s && '\0' !in t && i < |s| == |t| && s[i] != '['
    requires Normalize(s, i).ok && t[i..] == Normalize(s, i).text
    ensures i < k <= |s| && Normalize(s, k).ok && t[k..] == Normalize(s, k).text
    ensures Normalize(s, i) == Then(u, Normalize(s, k)) && Normalize(t, i) == Then(u, Normalize(t, k))
  {
    var w := Normalize(s, i);
    NormalizeStep(s, i);
    NormalizeStep(t, i);
    k, u := i + 1, [Underscore(s[i])];
    assert t[i] == w.text[0] == Underscore(s[i]);
    assert t[k..] == w.text[1..];
    assert Underscore(t[i]) == Underscore(s[i]);
  }

  /** A rewritten alias is already normal: rewriting it again changes nothing. */
  lemma NormalizeIdempotent(s: string)
    requires '\0' !in s && Normalize(s, 0).ok
    ensures '\0' !in Normalize(s, 0).text
    ensures Normalize(Normalize(s, 0).text, 0) == Normalize(s, 0)
  {
    var t := Normalize(s, 0).text;
    NormalizeShape(s, 0);
    assert '\0' !in t by {
      forall j | 0 <= j < |t| ensures t[j] != '\0' {
        assert s[j] != '\0';
      }
    }
    NormalizeAgain(s, t, 0);
  }

  /** How the rewrite from i continues, by the token at i. */
  lemma NormalizeStep(s: string, i: nat)
    requires '\0' !in s && i < |s|
    ensures s[i] != '[' && s[i] != ']' ==>
      Normalize(s, i) == Then([Underscore(s[i])], Normalize(s, i + 1))
    ensures s[i] == '[' && Span(s, i) < |s| ==>
      Normalize(s, i) == Then(s[i..Span(s, i) + 1], Normalize(s, Span(s, i) + 1))
  {
  }

  /**
   * One pass of the loop of underscores over the token at i of the string
   * body held in s: a '-' is replaced, a range is skipped, and a stray ']'
   * or an unterminated range is -EINVAL with s left as it was.
   */
  method UnderscoreToken(s: array<char>, i: nat, ghost body: string) returns (next: nat, r: int)
    requires '\0' !in body && i < |body| < s.Length && s[|body|] == '\0'
    requires s[i..|body|] == body[i..]
    modifies s
    ensures r == 0 || r == -EINVAL
    ensures r == -EINVAL <==> !Normalize(body, i).ok && Normalize(body, i).text == []
    ensures r == -EINVAL ==> s[..] == old(s[..])
    ensures r == 0 ==> i < next <= |body| && s[..i] == old(s[..i]) && s[next..] == old(s[next..])
    ensures r == 0 ==> Normalize(body, i) == Then(s[i..next], Normalize(body, next))
  {
    NormalizeStep(body, i);
    assert s[i] == body[i];
    if s[i] == '-' {
      s[i] := '_';
      assert s[i..i + 1] == [Underscore(body[i])];
      return i + 1, 0;
    } else if s[i] == ']' {
      return i, -EINVAL;
    } else if s[i] == '[' {
      var k := RangeEnd(s, i, body);
      if s[k] == '\0' {
        return i, -EINVAL;
      }
      assert s[i..k + 1] == body[i..k + 1] by {
        assert s[i..k + 1] == s[i..|body|][..k + 1 - i];
        assert body[i..k + 1] == body[i..][..k + 1 - i];
      }
      return k + 1, 0;
    } else {
      assert s[i..i + 1] == [Underscore(body[i])];
      return i + 1, 0;
    }
  }

  /**
   * i + strcspn(&s[i], "]") in underscores, over the string body held in s:
   * the ']' closing the range opened at i, or the NUL when none does.
   */
  method RangeEnd(s: array<char>, i: nat, ghost body: string) returns (k: nat)
    requires '\0' !in body && i < |body| < s.Length && s[|body|] == '\0'
    requires s[i..|body|] == body[i..]
    ensures k == Span(body, i) && k <= |body|
    ensures s[k] == '\0' <==> k == |body|
  {
    k := i + Span(s[i..], 0);
    var n := |body|;
    forall j | i <= j < n ensures s[j] == body[j] {
      assert s[i..n][j - i] == body[i..][j - i];
    }
    assert Span(s[..], i) == k by {
      SpanShift(s[..], i);
    }
    assert k <= n;
    if k < n {
      SpanUnique(body, i, k);
    } else {
      SpanUnique(body, i, n);
    }
  }

  /** Span from i in s is i plus Span of the suffix from i. */
  lemma SpanShift(s: seq<char>, i: nat)
    requires i <= |s|
    ensures Span(s, i) == i + Span(s[i..], 0)
  {
    var k := Span(s[i..], 0);
    assert forall j :: 0 <= j < k ==> s[i..][j] == s[i + j];
    SpanUnique(s, i, i + k);
  }

  /** The characters before the first NUL hold no NUL. */
  lemma NulFreePrefix(a: seq<char>, n: nat)
    requires n <= |a| && forall j :: 0 <= j < n ==> a[j] != '\0'
    ensures '\0' !in a[..n]
  {
  }

  /**
   * underscores: rewrites the string in s in place by Normalize. NULL and
   * a malformed range give -EINVAL; the '-' replaced before the offending
   * token stay replaced, and everything from that token on is untouched.
   */
  method Underscores(s: array?<char>) returns (r: int)
    requires s != null ==> '\0' in s[..]
    modifies s
    ensures s == null ==> r == -EINVAL
    ensures s != null ==>
      var n := old(StrLen(s[..]));
      var w := Normalize(old(s[..n]), 0);
      (r == 0 || r == -EINVAL) && (r == 0 <==> w.ok) &&
      s[..] == w.text + old(s[|w.text|..])
  {
    if s == null {
      return -EINVAL;
    }
    ghost var n := StrLen(s[..]);
    NulFreePrefix(s[..], n);
    r := UnderscoresLoop(s, s[..], n);
  }

  /**
   * The loop of underscores over the string a[..n] held in s: on success s
   * holds the rewrite, and on -EINVAL the rewrite up to the offending token
   * followed by the rest of a.
   */
  method UnderscoresLoop(s: array<char>, ghost a: string, ghost n: nat) returns (r: int)
    requires n < |a| == s.Length && a[n] == '\0' && '\0' !in a[..n] && s[..] == a
    modifies s
    ensures var w := Normalize(a[..n], 0);
      (r == 0 || r == -EINVAL) && (r == 0 <==> w.ok) && s[..] == w.text + a[|w.text|..]
  {
    ghost var body := a[..n];
    var i: nat := 0;
    ghost var done: string := [];
    assert Then(done, Normalize(body, 0)) == Normalize(body, 0);
    assert s[..] == done + a[i..];
    while s[i] != '\0'
      invariant i <= n && s.Length == |a| && |done| == i
      invariant s[..] == done + a[i..]
      invariant Normalize(body, 0) == Then(done, Normalize(body, i))
      decreases n - i
    {
      Splice(s[..], done, a, i, i);
      var next, res;
      ghost var done';
      next, res, done' := UnderscoreStep(s, i, a, n, done);
      if res != 0 {
        ghost var w := Normalize(body, 0);
        assert w.text == done + [] == done && !w.ok;
        return res;
      }
      i, done := next, done';
    }
    assert i == n by {
      Splice(s[..], done, a, i, i);
    }
    ghost var w := Normalize(body, 0);
    assert w.text == done + [] == done && w.ok;
    return 0;
  }

  /**
   * One pass of the loop of underscores, over the string a[..n] held in s
   * with its first i characters already rewritten into done.
   */
  method UnderscoreStep(s: array<char>, i: nat, ghost a: string, ghost n: nat, ghost done: string)
    returns (next: nat, res: int, ghost done': string)
    requires n < |a| == s.Length && a[n] == '\0' && '\0' !in a[..n] && i < n && |done| == i
    requires s[..] == done + a[i..]
    modifies s
    ensures res == 0 || res == -EINVAL
    ensures res != 0 ==> s[..] == old(s[..]) && !Normalize(a[..n], i).ok && Normalize(a[..n], i).text == []
    ensures res == 0 ==> i < next <= n && |done'| == next && s[..] == done' + a[next..]
    ensures res == 0 ==> Then(done, Normalize(a[..n], i)) == Then(done', Normalize(a[..n], next))
  {
    ghost var body := a[..n];
    ghost var before := s[..];
    Splice(before, done, a, i, i);
    SuffixUpTo(before, a, i, n);
    assert s[i..n] == body[i..] && s[n] == '\0';
    next, res := UnderscoreToken(s, i, body);
    done' := done;
    if res != 0 {
      return;
    }
    ghost var piece := s[i..next];
    Splice(before, done, a, i, next);
    ThenThen(done, piece, Normalize(body, next));
    Rejoin(s[..], done, piece, a[next..], i, next);
    done' := done + piece;
  }

  /** Where x is done followed by a from i on, its pieces at i and from k on are done and a[k..]. */
  lemma Splice(x: string, done: string, a: string, i: nat, k: nat)
    requires |done| == i <= k <= |a| && x == done + a[i..]
    ensures x[..i] == done && x[i..] == a[i..] && x[k..] == a[k..]
    ensures i < |a| ==> x[i] == a[i]
  {
    assert x[k..] == a[i..][k - i..];
  }

  /** Where x and a agree from i on, they agree between i and n. */
  lemma SuffixUpTo(x: string, a: string, i: nat, n: nat)
    requires i <= n < |a| && |x| == |a| && x[i..] == a[i..]
    ensures x[i..n] == a[..n][i..] && x[n] == a[n]
  {
    assert x[i..n] == x[i..][..n - i];
    assert a[..n][i..] == a[i..][..n - i];
    assert x[n] == x[i..][n - i];
  }

  /** x cut at i and k, with the pieces known, is their concatenation. */
  lemma Rejoin(x: string, done: string, piece: string, rest: string, i: nat, k: nat)
    requires i <= k <= |x| && x[..i] == done && x[i..k] == piece && x[k..] == rest
    ensures x == (done + piece) + rest
  {
    assert x == x[..i] + x[i..k] + x[k..];
  }

  // ---------------------------------------------------------------------
  // alias_normalize

  /**
   * The alias rewrite of s from i into a PATH_MAX buffer: outside ranges the
   * input is cut off at MAX_LEN characters, and a range must close before
   * the last slot, which is kept for the NUL.
   */
  function AliasRewrite(s: string, i: nat): (w: Rewrite)
    requires '\0' !in s && i <= |s|
    ensures |w.text| <= |s| - i && (w.text == [] || i + |w.text| <= MAX_LEN)
    ensures w.ok && i <= MAX_LEN ==> i + |w.text| == if |s| < MAX_LEN then |s| else MAX_LEN
    decreases |s| - i
  {
    if i >= MAX_LEN || i == |s| then Rewrite(true, [])
    else if s[i] == ']' then Rewrite(false, [])
    else if s[i] == '[' then
      var k := Span(s, i);
      if k == |s| || k >= MAX_LEN then Rewrite(false, [])
      else Then(s[i..k + 1], AliasRewrite(s, k + 1))
    else Then([Underscore(s[i])], AliasRewrite(s, i + 1))
  }

  /** With room for the whole alias, alias_normalize and underscores agree. */
  lemma {:induction false} AliasRewriteFits(s: string, i: nat)
    requires '\0' !in s && i <= |s| <= MAX_LEN
    ensures AliasRewrite(s, i) == Normalize(s, i)
    decreases |s| - i
  {
    if i < |s| && s[i] != ']' {
      var k := if s[i] == '[' then Span(s, i) else i;
      if k < |s| {
        AliasRewriteFits(s, k + 1);
      }
    }
  }

  /**
   * A longer alias that alias_normalize accepts is rewritten as its first
   * MAX_LEN characters: the rest is ignored, malformed or not.
   */
  lemma {:induction false} AliasRewriteCut(s: string, i: nat)
    requires '\0' !in s && MAX_LEN <= |s| && i <= MAX_LEN && AliasRewrite(s, i).ok
    ensures AliasRewrite(s, i) == Normalize(s[..MAX_LEN], i)
    decreases MAX_LEN - i
  {
    var p := s[..MAX_LEN];
    if i < MAX_LEN {
      assert p[i] == s[i];
      var k := if s[i] == '[' then Span(s, i) else i;
      if s[i] == '[' {
        assert forall j :: i <= j <= k ==> p[j] == s[j];
        SpanUnique(p, i, k);
        assert p[i..k + 1] == s[i..k + 1];
      }
      AliasRewriteCut(s, k + 1);
    }
  }

  /**
   * alias_normalize exactly as written: the index at which it stores the
   * terminating NUL, scanning from index i (None for -EINVAL). A range is
   * copied up to its ']' without looking at the end of the buffer.
   */
  function AliasEndAsWritten(a: string, i: nat): (e: Option<nat>)
    requires '\0' !in a
    ensures e.Some? ==> i <= e.value
    decreases |a| - i
  {
    if i >= MAX_LEN || i >= |a| then Some(i)
    else if a[i] == ']' then None
    else if a[i] == '[' then
      var k := Span(a, i);
      if k == |a| then None else AliasEndAsWritten(a, k + 1)
    else AliasEndAsWritten(a, i + 1)
  }

  /** The alias of 4094 letters followed by "[]". */
  function OverflowingAlias(): (a: string)
    ensures |a| == PATH_MAX && a[PATH_MAX - 2] == '[' && a[PATH_MAX - 1] == ']'
    ensures forall j :: 0 <= j < PATH_MAX - 2 ==> a[j] == 'a'
  {
    seq(PATH_MAX - 2, _ => 'a') + ['[', ']']
  }

  lemma {:induction false} LettersThenRange(i: nat)
    requires i <= PATH_MAX - 2
    ensures AliasEndAsWritten(OverflowingAlias(), i) == AliasEndAsWritten(OverflowingAlias(), PATH_MAX - 2)
    decreases PATH_MAX - 2 - i
  {
    if i < PATH_MAX - 2 {
      LettersThenRange(i + 1);
    }
  }

  /**
   * As written, alias_normalize accepts the alias of 4094 letters and "[]"
   * and stores its NUL at buf[4096], one past the end of char buf[PATH_MAX].
   */
  lemma AliasOverflowWitness()
    ensures AliasEndAsWritten(OverflowingAlias(), 0) == Some(PATH_MAX)
  {
    var a := OverflowingAlias();
    LettersThenRange(0);
    SpanUnique(a, PATH_MAX - 2, PATH_MAX - 1);
  }

  /**
   * Wherever the bounded rewrite succeeds, the code as written takes the same
   * path and ends at the same index: the bound only turns the inputs that
   * overflow into -EINVAL.
   */
  lemma {:induction false} AliasAsWrittenAgrees(a: string, i: nat)
    requires '\0' !in a && i <= MAX_LEN && i <= |a| && AliasRewrite(a, i).ok
    ensures AliasEndAsWritten(a, i) == Some(i + |AliasRewrite(a, i).text|)
    decreases |a| - i
  {
    if i < MAX_LEN && i < |a| {
      var k := if a[i] == '[' then Span(a, i) else i;
      AliasAsWrittenAgrees(a, k + 1);
    }
  }

  /** How the bounded rewrite from i continues, by the token at i. */
  lemma AliasRewriteStep(s: string, i: nat)
    requires '\0' !in s && i < |s| && i < MAX_LEN
    ensures s[i] != '[' && s[i] != ']' ==>
      AliasRewrite(s, i) == Then([Underscore(s[i])], AliasRewrite(s, i + 1))
    ensures s[i] == '[' && Span(s, i) < |s| && Span(s, i) < MAX_LEN ==>
      AliasRewrite(s, i) == Then(s[i..Span(s, i) + 1], AliasRewrite(s, Span(s, i) + 1))
  {
  }

  /**
   * One pass of the loop of alias_normalize over the token at i, which is
   * not the terminating NUL: '-' is written as '_', a range is copied with
   * its ']', any other character is copied, and a stray ']' or a range that
   * is unterminated or does not fit is -EINVAL.
   */
  method AliasToken(alias: string, buf: array<char>, i: nat) returns (next: nat, r: int)
    requires '\0' !in alias && buf.Length == PATH_MAX && i < |alias| && i < MAX_LEN
    modifies buf
    ensures r == 0 || r == -EINVAL
    ensures r == -EINVAL <==> !AliasRewrite(alias, i).ok && AliasRewrite(alias, i).text == []
    ensures buf[..i] == old(buf[..i])
    ensures r == 0 ==> i < next <= |alias| && next <= MAX_LEN
    ensures r == 0 ==> AliasRewrite(alias, i) == Then(buf[i..next], AliasRewrite(alias, next))
  {
    if alias[i] == '[' {
      var e := AliasRangeTake(alias, i);
      next, r := AliasRange(alias, buf, i);
    } else {
      next, r := AliasChar(alias, buf, i);
    }
  }

  /**
   * The cases of alias_normalize for a character other than '[': '-' is
   * written as '_', a stray ']' is -EINVAL, anything else is copied.
   */
  method AliasChar(alias: string, buf: array<char>, i: nat) returns (next: nat, r: int)
    requires '\0' !in alias && buf.Length == PATH_MAX && i < |alias| && i < MAX_LEN && alias[i] != '['
    modifies buf
    ensures r == 0 || r == -EINVAL
    ensures r == -EINVAL <==> alias[i] == ']'
    ensures r == -EINVAL ==> AliasRewrite(alias, i) == Rewrite(false, [])
    ensures buf[..i] == old(buf[..i])
    ensures r == 0 ==> next == i + 1 && buf[i..next] == [Underscore(alias[i])]
    ensures r == 0 ==> AliasRewrite(alias, i) == Then(buf[i..next], AliasRewrite(alias, next))
  {
    var c := alias[i];
    AliasRewriteStep(alias, i);
    if c == '-' {
      buf[i] := '_';
    } else if c == ']' {
      return i, -EINVAL;
    } else {
      buf[i] := c;
    }
    assert buf[i..i + 1] == [Underscore(c)];
    return i + 1, 0;
  }

  /**
   * The range at i, in the bounded rewrite: it fails when the range does
   * not close before the last slot, and otherwise keeps it as it is and
   * goes on after it.
   */
  lemma AliasRangeTake(s: string, i: nat) returns (e: nat)
    requires '\0' !in s && i < |s| && i < MAX_LEN && s[i] == '['
    ensures e == Span(s, i) && i <= e <= |s|
    ensures e == |s| || e >= MAX_LEN ==> AliasRewrite(s, i) == Rewrite(false, [])
    ensures e < |s| && e < MAX_LEN ==> AliasRewrite(s, i) == Then(s[i..e + 1], AliasRewrite(s, e + 1))
  {
    e := Span(s, i);
  }

  /**
   * The '[' case of alias_normalize: copies the range that starts at i,
   * with its ']', and continues after it; a range that is unterminated or
   * does not close before the last slot of buf is -EINVAL.
   */
  method AliasRange(alias: string, buf: array<char>, i: nat) returns (next: nat, r: int)
    requires '\0' !in alias && buf.Length == PATH_MAX && i < |alias| && i < MAX_LEN
    modifies buf
    ensures r == 0 || r == -EINVAL
    ensures buf[..i] == old(buf[..i])
    ensures r == -EINVAL <==> Span(alias, i) == |alias| || Span(alias, i) >= MAX_LEN
    ensures r == 0 ==> next == Span(alias, i) + 1 && buf[i..next] == alias[i..next]
  {
    var end := CopyRange(alias, buf, i);
    if end >= MAX_LEN || At(alias, end) != ']' {
      return i, -EINVAL;
    }
    buf[end] := ']';
    assert buf[i..end + 1] == alias[i..end + 1] by {
      assert forall j :: i <= j < end ==> buf[j] == buf[i..end][j - i] == alias[i..end][j - i];
    }
    return end + 1, 0;
  }

  /**
   * The copy of a range in alias_normalize: from the '[' at start, copies
   * alias into buf up to its ']', its end or the last slot of buf, whichever
   * comes first, and returns the index where it stopped.
   */
  method CopyRange(alias: string, buf: array<char>, start: nat) returns (end: nat)
    requires '\0' !in alias && buf.Length == PATH_MAX && start < |alias| && start < MAX_LEN
    modifies buf
    ensures start <= end <= |alias| && end <= MAX_LEN
    ensures end == if Span(alias, start) < MAX_LEN then Span(alias, start) else MAX_LEN
    ensures buf[..start] == old(buf[..start]) && buf[start..end] == alias[start..end]
  {
    end := start;
    while At(alias, end) != ']' && At(alias, end) != '\0' && end < MAX_LEN
      invariant start <= end <= |alias| && end <= MAX_LEN
      invariant forall j :: 0 <= j < start ==> buf[j] == old(buf[j])
      invariant forall j :: start <= j < end ==> buf[j] == alias[j]
      invariant forall j :: start <= j < end ==> alias[j] != ']' && alias[j] != '\0'
      decreases MAX_LEN - end
    {
      buf[end] := alias[end];
      end := end + 1;
    }
    assert buf[..start] == old(buf[..start]);
    assert buf[start..end] == alias[start..end];
    if end < MAX_LEN {
      SpanUnique(alias, start, end);
    } else {
      assert Span(alias, start) >= end;
    }
  }

  /**
   * alias_normalize with the range copy bounded by the buffer: writes the
   * rewrite of alias into buf and its NUL at len <= MAX_LEN; a stray ']', an
   * unterminated range or a range that does not fit is -EINVAL, with the
   * text rewritten before it already in buf.
   */
  method AliasNormalize(alias: string, buf: array<char>) returns (r: int, len: nat)
    requires '\0' !in alias && buf.Length == PATH_MAX
    modifies buf
    ensures var w := AliasRewrite(alias, 0);
      (r == 0 || r == -EINVAL) && (r == 0 <==> w.ok) && buf[..|w.text|] == w.text &&
      (r == 0 ==> len == |w.text| <= MAX_LEN && buf[len] == '\0')
  {
    var i: nat := 0;
    ghost var done: string := [];
    assert Then(done, AliasRewrite(alias, 0)) == AliasRewrite(alias, 0);
    while i < MAX_LEN
      invariant i <= MAX_LEN && i <= |alias| && |done| == i && buf[..i] == done
      invariant AliasRewrite(alias, 0) == Then(done, AliasRewrite(alias, i))
    {
      if At(alias, i) == '\0' {
        break;
      }
      var next, res;
      ghost var done';
      next, res, done' := AliasStep(alias, buf, i, done);
      if res != 0 {
        assert AliasRewrite(alias, 0).text == done + [];
        return res, 0;
      }
      i, done := next, done';
    }
    assert AliasRewrite(alias, 0).text == done + [];
    buf[i] := '\0';
    assert buf[..i] == done;
    return 0, i;
  }

  /**
   * One pass of the loop of alias_normalize, with the rewrite of the first
   * i characters of alias already in buf as done.
   */
  method AliasStep(alias: string, buf: array<char>, i: nat, ghost done: string)
    returns (next: nat, res: int, ghost done': string)
    requires '\0' !in alias && buf.Length == PATH_MAX && i < |alias| && i < MAX_LEN
    requires |done| == i && buf[..i] == done
    modifies buf
    ensures res == 0 || res == -EINVAL
    ensures buf[..i] == done
    ensures res != 0 ==> !AliasRewrite(alias, i).ok && AliasRewrite(alias, i).text == []
    ensures res == 0 ==> i < next <= |alias| && next <= MAX_LEN && |done'| == next && buf[..next] == done'
    ensures res == 0 ==> Then(done, AliasRewrite(alias, i)) == Then(done', AliasRewrite(alias, next))
  {
    done' := done;
    next, res := AliasToken(alias, buf, i);
    if res != 0 {
      return;
    }
    ghost var piece := buf[i..next];
    ThenThen(done, piece, AliasRewrite(alias, next));
    assert buf[..next] == buf[..i] + piece;
    done' := done + piece;
  }

  // ---------------------------------------------------------------------
  // modname_normalize

  /**
   * The module name in s from index i: the characters before the first
   * '.', with '-' turned into '_', cut off at MAX_LEN.
   */
  function ModName(s: string, i: nat): (m: string)
    requires i <= |s|
    ensures |m| <= |s| - i && (m == [] || i + |m| <= MAX_LEN)
    ensures '-' !in m && '.' !in m
    decreases |s| - i
  {
    if i >= MAX_LEN || i == |s| || s[i] == '.' then []
    else [Underscore(s[i])] + ModName(s, i + 1)
  }

  /**
   * The module name is s from i with '-' mapped to '_', stopping at
   * MAX_LEN, at the end of s or at the first '.'.
   */
  lemma {:induction false} ModNameShape(s: string, i: nat)
    requires i <= |s|
    ensures var m := ModName(s, i);
      (i + |m| >= MAX_LEN || i + |m| == |s| || s[i + |m|] == '.') &&
      forall j :: 0 <= j < |m| ==> m[j] == Underscore(s[i + j]) && s[i + j] != '.'
    decreases |s| - i
  {
    if i < MAX_LEN && i < |s| && s[i] != '.' {
      ModNameShape(s, i + 1);
      var m := ModName(s, i);
      var m' := ModName(s, i + 1);
      assert m == [Underscore(s[i])] + m';
      forall j | 0 <= j < |m| ensures m[j] == Underscore(s[i + j]) && s[i + j] != '.' {
        if j > 0 {
          assert m[j] == m'[j - 1];
          assert m'[j - 1] == Underscore(s[i + 1 + (j - 1)]) && s[i + 1 + (j - 1)] != '.';
        }
      }
    }
  }

  /** Where t agrees with the module name m of s from i on, t's name from i is m[i..]. */
  lemma {:induction false} ModNameAgain(m: string, i: nat)
    requires |m| <= MAX_LEN && '-' !in m && '.' !in m && i <= |m|
    ensures ModName(m, i) == m[i..]
    decreases |m| - i
  {
    if i < |m| {
      ModNameAgain(m, i + 1);
      assert m[i] != '.' && Underscore(m[i]) == m[i];
      assert m[i..] == [m[i]] + m[i + 1..];
    }
  }

  /** Normalizing a module name again gives the same name. */
  lemma ModNameIdempotent(s: string)
    ensures ModName(ModName(s, 0), 0) == ModName(s, 0)
  {
    var m := ModName(s, 0);
    ModNameAgain(m, 0);
  }

  /**
   * modname_normalize: writes the module name in modname to buf, with its
   * NUL at len <= MAX_LEN, and returns buf.
   */
  method ModnameNormalize(modname: string, buf: array<char>) returns (p: array<char>, len: nat)
    requires '\0' !in modname && buf.Length == PATH_MAX
    modifies buf
    ensures p == buf
    ensures len <= MAX_LEN && buf[..len] == ModName(modname, 0) && buf[len] == '\0'
  {
    var s: nat := 0;
    while s < MAX_LEN
      invariant s <= MAX_LEN && s <= |modname|
      invariant ModName(modname, 0) == buf[..s] + ModName(modname, s)
    {
      var c := At(modname, s);
      if c == '-' {
        buf[s] := '_';
      } else if c == '\0' || c == '.' {
        break;
      } else {
        buf[s] := c;
      }
      assert buf[..s + 1] == buf[..s] + [Underscore(modname[s])];
      s := s + 1;
    }
    buf[s] := '\0';
    return buf, s;
  }

  // path_ends_with_kmod_ext

  /** The compression formats the build enables (ENABLE_ZLIB, ENABLE_XZ, ENABLE_ZSTD). */
  datatype Features = Features(zlib: bool, xz: bool, zstd: bool)

  /** The kmod_exts table: ".ko" first, then one entry per enabled format. */
  function KmodExts(f: Features): (exts: seq<string>)
    ensures 1 <= |exts| <= 4 && exts[0] == ".ko"
    ensures ".ko.gz" in exts <==> f.zlib
    ensures ".ko.xz" in exts <==> f.xz
    ensures ".ko.zst" in exts <==> f.zstd
  {
    [".ko"] + (if f.zlib then [".ko.gz"] else []) + (if f.xz then [".ko.xz"] else [])
      + (if f.zstd then [".ko.zst"] else [])
  }

  /**
   * The scan of path_ends_with_kmod_ext over a table: an entry no shorter
   * than len is skipped, and a hit is streq of the path from
   * len - |ext| on with ext.
   */
  function EndsWithAny(path: string, len: nat, exts: seq<string>): (r: bool)
    requires '\0' !in path && len <= |path|
    ensures r <==> exists j :: 0 <= j < |exts| && |exts[j]| < len && path[len - |exts[j]|..] == exts[j]
  {
    if exts == [] then false
    else if len <= |exts[0]| then
      var r := EndsWithAny(path, len, exts[1..]);
      assert forall j :: 1 <= j < |exts| ==> exts[1..][j - 1] == exts[j];
      r
    else if path[len - |exts[0]|..] == exts[0] then true
    else
      var r := EndsWithAny(path, len, exts[1..]);
      assert forall j :: 1 <= j < |exts| ==> exts[1..][j - 1] == exts[j];
      r
  }

  /**
   * path_ends_with_kmod_ext: whether the path read from index len - |ext|
   * on is some extension ext of the table shorter than len. Called with
   * len == |path|, this is a strict suffix test.
   */
  function PathEndsWithKmodExt(path: string, len: nat, f: Features): (r: bool)
    requires '\0' !in path && len <= |path|
    ensures r <==> exists ext :: ext in KmodExts(f) && |ext| < len && path[len - |ext|..] == ext
  {
    var exts := KmodExts(f);
    var r := EndsWithAny(path, len, exts);
    assert r ==> exists ext :: ext in exts && |ext| < len && path[len - |ext|..] == ext;
    r
  }

  /** A module file name ending in ".ko" is recognized whatever the build enables. */
  lemma KoAlwaysRecognized(name: string, f: Features)
    requires '\0' !in name && |name| > 3 && name[|name| - 3..] == ".ko"
    ensures PathEndsWithKmodExt(name, |name|, f)
  {
    assert ".ko" in KmodExts(f);
  }

  /** ".ko" itself is too short to count: the extension must be a strict suffix. */
  lemma BareExtensionRejected(f: Features)
    ensures !PathEndsWithKmodExt(".ko", 3, f)
  {

  }
}
