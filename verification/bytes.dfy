/** Byte strings as SQLite keeps them in a BLOB column, and the order in which
    its BINARY collation compares them (`ORDER BY coin_id`, `coin_id > ?`). */
module Bytes {
  newtype byte = x: int | 0 <= x < 256

  type Bytes = seq<byte>

  /** Width of a coin id and of every hint the reverse lookup returns (`bytes32`). */
  const Bytes32Length := 32

  predicate IsBytes32(s: Bytes) {
    |s| == Bytes32Length
  }

  /** Byte-by-byte comparison; when one string is a prefix of the other, the
      shorter one comes first. */
  predicate Less(a: Bytes, b: Bytes)
    decreases |a|
  {
    if |a| == 0 then |b| > 0
    else |b| > 0 && (a[0] < b[0] || (a[0] == b[0] && Less(a[1..], b[1..])))
  }

  predicate LessEq(a: Bytes, b: Bytes) {
    a == b || Less(a, b)
  }

  lemma {:induction false} LessIrreflexive(a: Bytes)
    ensures !Less(a, a)
  {
    if |a| > 0 {
      LessIrreflexive(a[1..]);
    }
  }

  lemma {:induction false} LessTransitive(a: Bytes, b: Bytes, c: Bytes)
    requires Less(a, b) && Less(b, c)
    ensures Less(a, c)
    decreases |a|
  {
    if |a| > 0 && a[0] == b[0] && b[0] == c[0] {
      LessTransitive(a[1..], b[1..], c[1..]);
    }
  }

  lemma {:induction false} LessTotal(a: Bytes, b: Bytes)
    ensures a == b || Less(a, b) || Less(b, a)
    decreases |a|
  {
    if |a| > 0 && |b| > 0 && a[0] == b[0] {
      LessTotal(a[1..], b[1..]);
      if a[1..] == b[1..] {
        assert a == [a[0]] + a[1..] && b == [b[0]] + b[1..];
      }
    }
  }

  lemma LessAsymmetric(a: Bytes, b: Bytes)
    requires Less(a, b)
    ensures !Less(b, a)
  {
    if Less(b, a) {
      LessTransitive(a, b, a);
      LessIrreflexive(a);
    }
  }

  lemma LessEqTransitive(a: Bytes, b: Bytes, c: Bytes)
    requires LessEq(a, b) && LessEq(b, c)
    ensures LessEq(a, c)
  {
    if a != b && b != c {
      LessTransitive(a, b, c);
    }
  }

  /** Two strings each at most the other are equal. */
  lemma LessEqAntisymmetric(a: Bytes, b: Bytes)
    requires LessEq(a, b) && LessEq(b, a)
    ensures a == b
  {
    if a != b {
      LessAsymmetric(a, b);
    }
  }
}
