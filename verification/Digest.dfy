/** Versioned canonical digests: the length-framed byte message fed to SHA-256, its hexadecimal
    rendering, and the injectivity of both. The hash itself is a parameter of the model. */
module Digest {
  import opened Wrappers

  /** Thirty-two digest bytes, ordered as a byte string. */
  type SignatureDigest = d: seq<Byte> | |d| == 32 witness seq(32, _ => 0)

  type Hash = seq<Byte> -> SignatureDigest

  /** The assumption made of SHA-256, and only about the messages in question: no two
      different ones collide. (No function into 32 bytes is injective on all messages.) */
  ghost predicate NoCollision(hash: Hash, messages: set<seq<Byte>>) {
    forall a, b :: a in messages && b in messages && hash(a) == hash(b) ==> a == b
  }

  function Ascii(text: string): (r: seq<Byte>)
    ensures |r| == |text|
  {
    seq(|text|, i requires 0 <= i < |text| => (text[i] as int) % 256)
  }

  const ENTRY_DOMAIN: seq<Byte> := Ascii("conkit-signature:v2:entry")
  const GROUP_DOMAIN: seq<Byte> := Ascii("conkit-signature:v2:group")
  const INVENTORY_DOMAIN: seq<Byte> := Ascii("conkit-signature:v2:inventory")
  const SOURCE_SHAPE: seq<Byte> := Ascii("source_shape")
  const CONTRACT: seq<Byte> := Ascii("contract")

  // -------------------------------------------------------------- length framing

  function Power256(k: nat): nat {
    if k == 0 then 1 else 256 * Power256(k - 1)
  }

  /** The low `k` bytes of `n`, most significant first. */
  function BigEndian(n: nat, k: nat): (r: seq<Byte>)
    ensures |r| == k
  {
    if k == 0 then [] else BigEndian(n / 256, k - 1) + [n % 256]
  }

  lemma {:induction false} BigEndianInjective(m: nat, n: nat, k: nat)
    requires m < Power256(k) && n < Power256(k)
    requires BigEndian(m, k) == BigEndian(n, k)
    ensures m == n
  {
    if k > 0 {
      var a, b := BigEndian(m / 256, k - 1), BigEndian(n / 256, k - 1);
      assert (a + [m % 256])[k - 1] == (b + [n % 256])[k - 1];
      assert (a + [m % 256])[..k - 1] == a && (b + [n % 256])[..k - 1] == b;
      BigEndianInjective(m / 256, n / 256, k - 1);
    }
  }

  /** One field as `write_field` hashes it: eight length bytes, then the value. */
  function Frame(value: Slice): seq<Byte> {
    BigEndian(|value|, 8) + value
  }

  function FrameAll(fields: seq<Slice>): seq<Byte> {
    if fields == [] then [] else Frame(fields[0]) + FrameAll(fields[1..])
  }

  lemma {:induction false} FrameAllAppend(a: seq<Slice>, b: seq<Slice>)
    ensures FrameAll(a + b) == FrameAll(a) + FrameAll(b)
  {
    if a == [] {
      assert a + b == b;
    } else {
      assert (a + b)[1..] == a[1..] + b;
      FrameAllAppend(a[1..], b);
    }
  }

  lemma FramePrefix(x: Slice, y: Slice, s: seq<Byte>, t: seq<Byte>)
    requires Frame(x) + s == Frame(y) + t
    ensures x == y && s == t
  {
    assert (Frame(x) + s)[..8] == BigEndian(|x|, 8) && (Frame(y) + t)[..8] == BigEndian(|y|, 8);
    assert Power256(8) == 0x1_0000_0000_0000_0000 by {
      assert Power256(4) == 0x1_0000_0000;
    }
    BigEndianInjective(|x|, |y|, 8);
    assert (Frame(x) + s)[8..8 + |x|] == x && (Frame(y) + t)[8..8 + |y|] == y;
    assert (Frame(x) + s)[8 + |x|..] == s && (Frame(y) + t)[8 + |y|..] == t;
  }

  /** The framing loses nothing: the hashed message determines the sequence of fields. */
  lemma {:induction false} FrameAllInjective(a: seq<Slice>, b: seq<Slice>)
    requires FrameAll(a) == FrameAll(b)
    ensures a == b
  {
    if a != [] && b != [] {
      FramePrefix(a[0], b[0], FrameAll(a[1..]), FrameAll(b[1..]));
      FrameAllInjective(a[1..], b[1..]);
      assert a == [a[0]] + a[1..] && b == [b[0]] + b[1..];
    }
  }

  /** The number that bytes spell, most significant first. */
  function Number(bytes: seq<Byte>): nat {
    if bytes == [] then 0 else 256 * Number(bytes[..|bytes| - 1]) + bytes[|bytes| - 1]
  }

  lemma {:induction false} BigEndianReads(n: nat, k: nat)
    requires n < Power256(k)
    ensures Number(BigEndian(n, k)) == n
  {
    if k > 0 {
      BigEndianReads(n / 256, k - 1);
      assert BigEndian(n, k)[..k - 1] == BigEndian(n / 256, k - 1);
    }
  }

  /** Reads a framed message: eight bytes of length, then so many bytes, until nothing is left. */
  function Unframed(b: seq<Byte>): Option<seq<seq<Byte>>>
    decreases |b|
  {
    if b == [] then Some([])
    else if |b| < 8 || |b| < 8 + Number(b[..8]) then None
    else
      var end := 8 + Number(b[..8]);
      match Unframed(b[end..])
      case None => None
      case Some(rest) => Some([b[8..end]] + rest)
  }

  /** Reading a framed message gives back its fields. */
  lemma {:induction false} FramesRead(fields: seq<Slice>)
    ensures Unframed(FrameAll(fields)) == Some(fields)
  {
    hide BigEndian, Number;
    if fields != [] {
      var first, rest := fields[0], FrameAll(fields[1..]);
      var b := BigEndian(|first|, 8) + first + rest;
      assert FrameAll(fields) == b;
      assert Power256(8) == 0x1_0000_0000_0000_0000 by {
        assert Power256(4) == 0x1_0000_0000;
      }
      BigEndianReads(|first|, 8);
      assert b[..8] == BigEndian(|first|, 8) && b[8..8 + |first|] == first && b[8 + |first|..] == rest;
      FramesRead(fields[1..]);
      assert [first] + fields[1..] == fields;
    }
  }

  /** The fields `write_optional_field` writes. */
  function OptionalFields(value: Option<Slice>): seq<Slice> {
    match value
    case Some(v) => [[1], v]
    case None => [[0]]
  }

  lemma OptionalFieldsInjective(a: Option<Slice>, b: Option<Slice>, s: seq<Slice>, t: seq<Slice>)
    requires OptionalFields(a) + s == OptionalFields(b) + t
    ensures a == b && s == t
  {
    var left, right := OptionalFields(a) + s, OptionalFields(b) + t;
    assert left[0] == right[0];
    assert a.Some? <==> left[0] == [1];
    assert b.Some? <==> right[0] == [1];
    if a.Some? {
      assert left[1] == right[1] && left[2..] == s && right[2..] == t;
    } else {
      assert left[1..] == s && right[1..] == t;
    }
  }

  // -------------------------------------------------------------- hexadecimal

  function HexDigit(n: int): Byte
    requires 0 <= n < 16
  {
    if n < 10 then 48 + n else 87 + n
  }

  function Hex(bytes: seq<Byte>): (r: seq<Byte>)
    ensures |r| == 2 * |bytes|
  {
    if bytes == [] then []
    else Hex(bytes[..|bytes| - 1])
         + [HexDigit(bytes[|bytes| - 1] / 16), HexDigit(bytes[|bytes| - 1] % 16)]
  }

  /** What a lowercase hexadecimal digit stands for. */
  function HexValue(digit: Byte): Option<Byte> {
    if 48 <= digit <= 57 then Some(digit - 48) else if 97 <= digit <= 102 then Some(digit - 87) else None
  }

  /** Byte `i` is rendered by the lowercase digits at `2 * i` and `2 * i + 1`, high half first. */
  lemma {:induction false} HexReads(bytes: seq<Byte>, i: nat)
    requires i < |bytes|
    ensures HexValue(Hex(bytes)[2 * i]) == Some(bytes[i] / 16) && HexValue(Hex(bytes)[2 * i + 1]) == Some(bytes[i] % 16)
  {
    if i < |bytes| - 1 { HexReads(bytes[..|bytes| - 1], i); }
  }

  lemma {:induction false} HexInjective(a: seq<Byte>, b: seq<Byte>)
    requires Hex(a) == Hex(b)
    ensures a == b
  {
    assert |Hex(a)| == |Hex(b)|;
    if a != [] {
      var n := |a| - 1;
      assert Hex(a)[..2 * n] == Hex(a[..n]) && Hex(b)[..2 * n] == Hex(b[..n]);
      assert Hex(a)[2 * n] == Hex(b)[2 * n] && Hex(a)[2 * n + 1] == Hex(b)[2 * n + 1];
      HexInjective(a[..n], b[..n]);
      assert a == a[..n] + [a[n]] && b == b[..n] + [b[n]];
    }
  }

  /** `SignatureDigest::hex_bytes`: fills a fixed 64-byte buffer, two characters a byte. */
  method HexBytes(digest: SignatureDigest) returns (rendered: seq<Byte>)
    ensures rendered == Hex(digest) && |rendered| == 64
  {
    var buffer := new Byte[64];
    for index := 0 to 32
      invariant buffer[..2 * index] == Hex(digest[..index])
    {
      buffer[index * 2] := HexDigit(digest[index] / 16);
      buffer[index * 2 + 1] := HexDigit(digest[index] % 16);
      assert digest[..index + 1][..index] == digest[..index];
      assert buffer[..2 * (index + 1)]
          == buffer[..2 * index] + [buffer[index * 2], buffer[index * 2 + 1]];
    }
    assert digest[..32] == digest && buffer[..64] == buffer[..];
    rendered := buffer[..];
  }

  // -------------------------------------------------------------- the encoder

  /** `DigestEncoder`: absorbs framed fields one at a time. */
  class DigestEncoder {
    const hash: Hash
    var absorbed: seq<Byte>
    ghost var fields: seq<Slice>

    ghost predicate Valid()
      reads this
    {
      absorbed == FrameAll(fields)
    }

    constructor (hash: Hash, domain: Slice)
      ensures Valid() && this.hash == hash && fields == [domain]
    {
      this.hash := hash;
      absorbed := Frame(domain);
      fields := [domain];
      new;
      assert Frame(domain) + [] == Frame(domain);
    }

    method WriteField(value: Slice)
      requires Valid()
      modifies this
      ensures Valid() && fields == old(fields) + [value]
    {
      FrameAllAppend(fields, [value]);
      assert FrameAll([value]) == Frame(value);
      absorbed := absorbed + BigEndian(|value|, 8);
      absorbed := absorbed + value;
      fields := fields + [value];
      assert absorbed == old(absorbed) + Frame(value);
    }

    method WriteOptionalField(value: Option<Slice>)
      requires Valid()
      modifies this
      ensures Valid() && fields == old(fields) + OptionalFields(value)
    {
      match value {
        case Some(v) =>
          WriteField([1]);
          WriteField(v);
        case None =>
          WriteField([0]);
      }
    }

    method Finish() returns (digest: SignatureDigest)
      requires Valid()
      ensures digest == hash(FrameAll(fields))
    {
      digest := hash(absorbed);
    }
  }

  function EntryMessage(canonical: Slice): seq<Byte> {
    FrameAll([ENTRY_DOMAIN, canonical])
  }

  method DigestForEntry(hash: Hash, canonical: Slice) returns (digest: SignatureDigest)
    ensures digest == hash(EntryMessage(canonical))
  {
    var encoder := new DigestEncoder(hash, ENTRY_DOMAIN);
    encoder.WriteField(canonical);
    digest := encoder.Finish();
  }

  /** An entry is hashed as two fields: its domain and its canonical bytes. */
  lemma EntryMessageReads(canonical: Slice)
    ensures Unframed(EntryMessage(canonical)) == Some([Ascii("conkit-signature:v2:entry"), canonical])
  {
    FramesRead([ENTRY_DOMAIN, canonical]);
  }
}
