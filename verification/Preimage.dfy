/** The identifier hash of the REST shim and the byte string it is computed from. */
module Preimage {

  type Byte = b: int | 0 <= b < 0x100

  type Bytes = seq<Byte>

  const TWO_TO_64 := 0x1_0000_0000_0000_0000

  /** A length a `u64` can hold. */
  predicate Fits(part: Bytes) {
    |part| < TWO_TO_64
  }

  ghost predicate AllFit(parts: seq<Bytes>) {
    forall i :: 0 <= i < |parts| ==> Fits(parts[i])
  }

  function Pow256(k: nat): (p: nat)
    ensures p >= 1
  {
    if k == 0 then 1 else 0x100 * Pow256(k - 1)
  }

  /** `to_be_bytes`, in `width` bytes. */
  function BigEndian(n: nat, width: nat): (s: Bytes)
    ensures |s| == width
  {
    if width == 0 then [] else BigEndian(n / 0x100, width - 1) + [n % 0x100]
  }

  lemma {:induction false} BigEndianInjective(m: nat, n: nat, width: nat)
    requires m < Pow256(width) && n < Pow256(width) && BigEndian(m, width) == BigEndian(n, width)
    ensures m == n
  {
    if width > 0 {
      var a, b := BigEndian(m, width), BigEndian(n, width);
      assert a[..width - 1] == BigEndian(m / 0x100, width - 1) && b[..width - 1] == BigEndian(n / 0x100, width - 1);
      assert a[width - 1] == m % 0x100 && b[width - 1] == n % 0x100;
      BigEndianInjective(m / 0x100, n / 0x100, width - 1);
    }
  }

  lemma EightBytes()
    ensures Pow256(8) == TWO_TO_64
  {
    assert Pow256(2) == 0x1_0000;
    assert Pow256(4) == 0x1_0000_0000;
    assert Pow256(6) == 0x1_0000_0000_0000;
  }

  function Framed(part: Bytes): Bytes {
    BigEndian(|part|, 8) + part
  }

  /** What the hasher is fed for a list of parts. */
  function Feed(parts: seq<Bytes>): Bytes {
    if parts == [] then [] else Framed(parts[0]) + Feed(parts[1..])
  }

  /** The first part can be told from what is fed. */
  lemma FirstPartDetermined(p: Bytes, q: Bytes, x: Bytes, y: Bytes)
    requires Fits(p) && Fits(q) && Framed(p) + x == Framed(q) + y
    ensures p == q && x == y
  {
    var a, b := Framed(p) + x, Framed(q) + y;
    assert a[..8] == BigEndian(|p|, 8) && b[..8] == BigEndian(|q|, 8);
    EightBytes();
    BigEndianInjective(|p|, |q|, 8);
    assert a[8..8 + |p|] == p && b[8..8 + |q|] == q;
    assert a[8 + |p|..] == x && b[8 + |q|..] == y;
  }

  /** The feed is uniquely decodable, also between lists of different lengths. */
  lemma {:induction false} FeedInjective(a: seq<Bytes>, b: seq<Bytes>)
    requires AllFit(a) && AllFit(b) && Feed(a) == Feed(b)
    ensures a == b
  {
    if a != [] && b != [] {
      FirstPartDetermined(a[0], b[0], Feed(a[1..]), Feed(b[1..]));
      FeedInjective(a[1..], b[1..]);
      assert a == [a[0]] + a[1..] && b == [b[0]] + b[1..];
    }
  }

  /** `b"invoicekit:rest-shim:v1"`. */
  const TAG: Bytes := [
    105, 110, 118, 111, 105, 99, 101, 107, 105, 116, 58, 114, 101, 115, 116, 45, 115, 104, 105, 109, 58, 118, 49
  ]

  function HashedBytes(parts: seq<Bytes>): Bytes {
    TAG + Feed(parts)
  }

  function ShortHash(digest: Bytes -> string, parts: seq<Bytes>): string
    requires |digest(HashedBytes(parts))| == 64
  {
    digest(HashedBytes(parts))[..24]
  }

  // ------------------------------------------------------------------ decoding

  /** The number that bytes write, the most significant first. */
  function Value(s: Bytes): nat {
    if s == [] then 0 else s[0] * Pow256(|s| - 1) + Value(s[1..])
  }

  lemma {:induction false} ValueAppend(s: Bytes, b: Byte)
    ensures Value(s + [b]) == Value(s) * 0x100 + b
  {
    if s == [] {
      assert s + [b] == [b];
    } else {
      assert (s + [b])[1..] == s[1..] + [b];
      ValueAppend(s[1..], b);
      Shift(s[0], Pow256(|s| - 1), Value(s[1..]), b);
    }
  }

  lemma Shift(h: int, p: int, v: int, b: int)
    ensures h * (0x100 * p) + (v * 0x100 + b) == (h * p + v) * 0x100 + b
  {
  }

  lemma {:induction false} BigEndianValue(n: nat, width: nat)
    requires n < Pow256(width)
    ensures Value(BigEndian(n, width)) == n
  {
    if width > 0 {
      BigEndianValue(n / 0x100, width - 1);
      ValueAppend(BigEndian(n / 0x100, width - 1), n % 0x100);
    }
  }

  /** Reading parts back: eight bytes of length, then that many bytes. */
  function Unfeed(s: Bytes): (parts: seq<Bytes>)
    decreases |s|
  {
    if |s| < 8 then [] else
    var n := Value(s[..8]);
    if |s| < 8 + n then [] else [s[8..8 + n]] + Unfeed(s[8 + n..])
  }

  /** What is fed to the hasher reads back as the parts it was made of. */
  lemma {:induction false} FeedReadsBack(parts: seq<Bytes>)
    requires AllFit(parts)
    ensures Unfeed(Feed(parts)) == parts
  {
    if parts != [] {
      var n, s := |parts[0]|, Feed(parts);
      EightBytes();
      BigEndianValue(n, 8);
      assert s == BigEndian(n, 8) + (parts[0] + Feed(parts[1..]));
      assert s[..8] == BigEndian(n, 8) && s[8..8 + n] == parts[0] && s[8 + n..] == Feed(parts[1..]);
      FeedReadsBack(parts[1..]);
      assert parts == [parts[0]] + parts[1..];
    }
  }

  /** The tag is the ASCII text, and the short hash the first 24 characters of the digest of tag and feed. */
  lemma HashIsOf(digest: Bytes -> string, parts: seq<Bytes>)
    requires |digest(HashedBytes(parts))| == 64
    ensures |TAG| == |"invoicekit:rest-shim:v1"| && forall i :: 0 <= i < |TAG| ==>
      TAG[i] == "invoicekit:rest-shim:v1"[i] as int
    ensures HashedBytes(parts)[..23] == TAG && HashedBytes(parts)[23..] == Feed(parts)
    ensures |ShortHash(digest, parts)| == 24 && ShortHash(digest, parts) <= digest(HashedBytes(parts))
  {
  }
}
