/**
 * The order kmod keeps each bucket in: strcmp on C strings, which compares
 * the bytes as unsigned chars and puts a proper prefix before every
 * extension of it (the terminating NUL is smaller than any other byte).
 */
module KeyOrder {

  /** The bytes of a C string before its terminating NUL. */
  type Key = seq<bv8>

  /** The sign of strcmp(a, b). */
  function Strcmp(a: Key, b: Key): (c: int)
    ensures -1 <= c <= 1
  {
    if |a| == 0 then (if |b| == 0 then 0 else -1)
    else if |b| == 0 then 1
    else if a[0] < b[0] then -1
    else if a[0] > b[0] then 1
    else Strcmp(a[1..], b[1..])
  }

  /** a sorts strictly before b. */
  predicate Less(a: Key, b: Key) {
    Strcmp(a, b) < 0
  }

  /** strcmp reports equality exactly for equal strings. */
  lemma {:induction false} StrcmpZero(a: Key, b: Key)
    ensures Strcmp(a, b) == 0 <==> a == b
  {
    if |a| > 0 && |b| > 0 && a[0] == b[0] {
      StrcmpZero(a[1..], b[1..]);
      assert a == [a[0]] + a[1..] && b == [b[0]] + b[1..];
    }
  }

  /** Swapping the arguments flips the sign. */
  lemma {:induction false} StrcmpFlip(a: Key, b: Key)
    ensures Strcmp(b, a) == -Strcmp(a, b)
  {
    if |a| > 0 && |b| > 0 && a[0] == b[0] {
      StrcmpFlip(a[1..], b[1..]);
    }
  }

  /** The order is irreflexive and total on distinct keys. */
  lemma LessTotal(a: Key, b: Key)
    ensures !Less(a, a)
    ensures a != b ==> Less(a, b) || Less(b, a)
    ensures Less(a, b) ==> !Less(b, a) && a != b
  {
    StrcmpZero(a, a);
    StrcmpZero(a, b);
    StrcmpFlip(a, b);
  }

  /** The order is transitive. */
  lemma {:induction false} LessTrans(a: Key, b: Key, c: Key)
    requires Less(a, b) && Less(b, c)
    ensures Less(a, c)
  {
    if |a| > 0 && |b| > 0 && |c| > 0 && a[0] == b[0] == c[0] {
      LessTrans(a[1..], b[1..], c[1..]);
    }
  }
}
