/**
 Vocabulary shared by every component: result codes, bytes, C strings, the string hash
 and two sequence operations.
 */
module Common {

  datatype Option<+T> = None | Some(value: T)

  /** The result codes that the modelled operations return. */
  datatype Status = Success | InvalidParam | NotFound | Timeout

  newtype byte = b: int | 0 <= b < 256

  type Bytes = seq<byte>

  /** The contents of a C string: no byte before the terminator is NUL. */
  type Key = k: Bytes | 0 !in k

  const TWO_32: nat := 0x1_0000_0000
  const TWO_64: nat := 0x1_0000_0000_0000_0000

  /** Value of a plain `char`, which is signed on the platforms the program targets. */
  function SignedChar(b: byte): (c: int)
    ensures -128 <= c < 128 && (c - b as int) % 256 == 0
  {
    if b < 128 then b as int else b as int - 256
  }

  /** The string hash used by the cache and by the key-value store, in 32-bit arithmetic. */
  function Djb2(s: Bytes): (h: nat)
    ensures h < TWO_32
  {
    if s == [] then 5381 else (Djb2(s[..|s| - 1]) * 33 + SignedChar(s[|s| - 1])) % TWO_32
  }

  function PowerOf33(n: nat): nat {
    if n == 0 then 1 else 33 * PowerOf33(n - 1)
  }

  /** The characters as digits of a number to base 33. */
  function Base33(s: Bytes): int {
    if s == [] then 0 else SignedChar(s[0]) * PowerOf33(|s| - 1) + Base33(s[1..])
  }

  lemma {:induction false} Base33Snoc(s: Bytes, b: byte)
    ensures Base33(s + [b]) == 33 * Base33(s) + SignedChar(b)
  {
    if s != [] {
      Base33Snoc(s[1..], b);
      assert (s + [b])[1..] == s[1..] + [b];
      Times33(SignedChar(s[0]), |s| - 1);
    } else {
      assert Base33([]) == 0 && [b][1..] == [];
    }
  }

  lemma Times33(x: int, n: nat)
    ensures x * PowerOf33(n + 1) == 33 * (x * PowerOf33(n))
  {
  }

  lemma Multiples(h: int, x: int, c: int, q: int)
    requires h == x - TWO_32 * q
    ensures (h * 33 + c) % TWO_32 == (x * 33 + c) % TWO_32
  {
    assert h * 33 + c == x * 33 + c + TWO_32 * (-33 * q);
    SameRemainder(x * 33 + c, -33 * q);
  }

  lemma SameRemainder(x: int, k: int)
    ensures (x + TWO_32 * k) % TWO_32 == x % TWO_32
  {
  }

  /** The hash is 5381 followed by the characters, read to base 33, in 32 bits. */
  lemma {:induction false} HashIs(s: Bytes)
    ensures Djb2(s) == (5381 * PowerOf33(|s|) + Base33(s)) % TWO_32
  {
    if s != [] {
      var front, b := s[..|s| - 1], s[|s| - 1];
      assert s == front + [b];
      HashIs(front);
      Base33Snoc(front, b);
      var x := 5381 * PowerOf33(|front|) + Base33(front);
      Multiples(Djb2(front), x, SignedChar(b), x / TWO_32);
    }
  }

  /** The hashing loop. */
  method HashKey(key: Bytes) returns (hash: nat)
    ensures hash == Djb2(key)
  {
    hash := 5381;
    for i := 0 to |key|
      invariant hash == Djb2(key[..i])
    {
      assert key[..i + 1][..i] == key[..i];
      hash := (hash * 33 + SignedChar(key[i])) % TWO_32;
    }
    assert key[..|key|] == key;
  }

  /** The bucket a key belongs to in a table of `n` buckets. */
  function Bucket(key: Bytes, n: nat): (b: nat)
    requires n > 0
    ensures b < n
  {
    Djb2(key) % n
  }

  function RemoveAt<T>(s: seq<T>, i: nat): (r: seq<T>)
    requires i < |s|
    ensures |r| == |s| - 1
    ensures forall j :: 0 <= j < i ==> r[j] == s[j]
    ensures forall j :: i <= j < |r| ==> r[j] == s[j + 1]
  {
    s[..i] + s[i + 1..]
  }

  function MoveToFront<T>(s: seq<T>, i: nat): (r: seq<T>)
    requires i < |s|
    ensures |r| == |s| && r[0] == s[i] && r[1..] == RemoveAt(s, i)
  {
    [s[i]] + RemoveAt(s, i)
  }
}
