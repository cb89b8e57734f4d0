/** The 48-byte record header: big-endian 64-bit fields behind an 8-byte magic. */
module Wire {
  import opened Basics

  const MAGIC: Bytes := [72, 76, 88, 70, 69, 82, 51, 0]  // "HLXFER3\0"

  const HEADER_BYTES: nat := 48

  const MAX_NAME_BYTES: nat := 4096

  const KIND_FILE: U64 := 1
  const KIND_DIRECTORY_TAR: U64 := 2
  const KIND_FILE_PART: U64 := 3
  const KIND_DIRECTORY_ENTRY: U64 := 4
  const KIND_DIRECTORY_FILE: U64 := 5
  const KIND_DIRECTORY_SYMLINK: U64 := 6

  datatype Header = Header(kind: U64, payloadSize: U64, nameSize: U64, offset: U64, totalSize: U64)

  datatype HeaderError = BadMagic | BadNameLength | BadKind

  // ----- Big-endian numbers -----

  function Pow256(n: nat): nat {
    if n == 0 then 1 else 256 * Pow256(n - 1)
  }

  /** The `width` low bytes of `value`, most significant first. */
  function EncodeBe(width: nat, value: nat): (s: Bytes)
    ensures |s| == width
  {
    if width == 0 then [] else EncodeBe(width - 1, value / 256) + [value % 256]
  }

  function DecodeBe(s: Bytes): nat {
    if |s| == 0 then 0 else 256 * DecodeBe(s[..|s| - 1]) + s[|s| - 1]
  }

  lemma Pow256Positive(n: nat)
    ensures Pow256(n) > 0
  {
  }

  lemma {:induction false} EightBytes()
    ensures Pow256(8) == U64_MODULUS
  {
    assert Pow256(4) == 0x1_0000_0000;
    assert Pow256(8) == 0x1_0000_0000 * Pow256(4);
  }

  lemma {:induction false} EncodeDecode(width: nat, value: nat)
    requires value < Pow256(width)
    ensures DecodeBe(EncodeBe(width, value)) == value
  {
    if width > 0 {
      EncodeDecode(width - 1, value / 256);
      var s := EncodeBe(width, value);
      assert s[..|s| - 1] == EncodeBe(width - 1, value / 256);
    }
  }

  lemma {:induction false} DecodeEncode(s: Bytes)
    ensures DecodeBe(s) < Pow256(|s|)
    ensures EncodeBe(|s|, DecodeBe(s)) == s
  {
    if |s| > 0 {
      DecodeEncode(s[..|s| - 1]);
      assert s == s[..|s| - 1] + [s[|s| - 1]];
    }
  }

  lemma {:induction false} EncodeDigit(width: nat, value: nat, i: nat)
    requires i < width
    ensures Pow256(width - 1 - i) > 0
    ensures EncodeBe(width, value)[i] == value / Pow256(width - 1 - i) % 256
  {
    Pow256Positive(width - 1 - i);
    if i < width - 1 {
      EncodeDigit(width - 1, value / 256, i);
      DivideTwice(value, Pow256(width - 2 - i));
    }
  }

  lemma {:induction false} DivideTwice(v: nat, b: nat)
    requires b > 0
    ensures v / 256 / b == v / (256 * b)
  {
    var q, r := v / 256 / b, v / 256 % b;
    assert v / 256 == b * q + r;
    assert (256 * b) * q == 256 * (b * q);
    QuotientUnique(v, 256 * b, q, 256 * r + v % 256);
  }

  lemma {:induction false} QuotientUnique(v: nat, d: nat, q: nat, r: nat)
    requires d > 0 && v == d * q + r && r < d
    ensures v / d == q
  {
    var q' := v / d;
    assert d * (q' - q) == d * q' - d * q;
    if q' > q {
      Multiple(d, q' - q);
    } else if q' < q {
      Multiple(d, q - q');
    }
  }

  lemma {:induction false} Multiple(d: nat, x: nat)
    requires x > 0
    ensures d * x >= d
  {
  }

  /** Fills eight bytes of `buffer` from `start` on; byte `index` is the value shifted right
      by 8 * (7 - index) bits, masked to its low byte. */
  method WriteU64Be(buffer: array<Byte>, start: nat, value: U64)
    requires start + 8 <= buffer.Length
    modifies buffer
    ensures buffer[..] == old(buffer[..start]) + EncodeBe(8, value) + old(buffer[start + 8..])
  {
    for index := 0 to 8
      invariant buffer[..start] == old(buffer[..start])
      invariant buffer[start + 8..] == old(buffer[start + 8..])
      invariant forall i | 0 <= i < index :: buffer[start + i] == EncodeBe(8, value)[i]
    {
      EncodeDigit(8, value, index);
      buffer[start + index] := value / Pow256(7 - index) % 256;
    }
    assert buffer[start..start + 8] == EncodeBe(8, value);
    assert buffer[..] == buffer[..start] + buffer[start..start + 8] + buffer[start + 8..];
  }

  /** Accumulates eight bytes; the 64-bit shift never loses a byte. */
  method ReadU64Be(buffer: Bytes) returns (value: U64)
    requires |buffer| >= 8
    ensures value == DecodeBe(buffer[..8])
    ensures |buffer| == 8 ==> value == DecodeU64(buffer)
  {
    value := 0;
    EightBytes();
    for index := 0 to 8
      invariant value == DecodeBe(buffer[..index])
    {
      assert buffer[..index + 1][..index] == buffer[..index];
      DecodeEncode(buffer[..index + 1]);
      Pow256Monotone(index + 1, 8);
      value := value * 256 % U64_MODULUS + buffer[index];
    }
    if |buffer| == 8 {
      assert buffer[..8] == buffer;
    }
  }

  lemma Pow256Monotone(m: nat, n: nat)
    requires m <= n
    ensures Pow256(m) <= Pow256(n)
  {
  }

  // ----- Headers -----

  function EncodeHeader(h: Header): (s: Bytes)
    ensures |s| == HEADER_BYTES
  {
    MAGIC + EncodeBe(8, h.kind) + EncodeBe(8, h.payloadSize) + EncodeBe(8, h.nameSize)
    + EncodeBe(8, h.offset) + EncodeBe(8, h.totalSize)
  }

  predicate ValidKind(kind: U64) {
    KIND_FILE <= kind <= KIND_DIRECTORY_SYMLINK
  }

  predicate AcceptableHeader(h: Header) {
    1 <= h.nameSize <= MAX_NAME_BYTES && ValidKind(h.kind)
  }

  function DecodeU64(s: Bytes): U64
    requires |s| == 8
  {
    EightBytes();
    DecodeEncode(s);
    DecodeBe(s)
  }

  /** What the receiver makes of 48 header bytes. */
  function DecodeHeader(s: Bytes): Result<Header, HeaderError>
    requires |s| == HEADER_BYTES
  {
    if s[..8] != MAGIC then Err(BadMagic)
    else
      var h := Header(DecodeU64(s[8..16]), DecodeU64(s[16..24]), DecodeU64(s[24..32]),
                      DecodeU64(s[32..40]), DecodeU64(s[40..48]));
      if h.nameSize == 0 || h.nameSize > MAX_NAME_BYTES then Err(BadNameLength)
      else if !ValidKind(h.kind) then Err(BadKind)
      else Ok(h)
  }

  lemma {:induction false} U64RoundTrip(v: U64)
    ensures DecodeU64(EncodeBe(8, v)) == v
  {
    EightBytes();
    EncodeDecode(8, v);
  }

  /** The receiver decodes a header to exactly the fields the sender encoded, provided the name
      length and the kind are acceptable, and refuses it otherwise. */
  lemma {:induction false} HeaderRoundTrip(h: Header)
    ensures DecodeHeader(EncodeHeader(h)) == Ok(h) <==> AcceptableHeader(h)
    ensures DecodeHeader(EncodeHeader(h)).Ok? ==> AcceptableHeader(h)
  {
    U64RoundTrip(h.kind);
    U64RoundTrip(h.payloadSize);
    U64RoundTrip(h.nameSize);
    U64RoundTrip(h.offset);
    U64RoundTrip(h.totalSize);
    SixParts(MAGIC, EncodeBe(8, h.kind), EncodeBe(8, h.payloadSize), EncodeBe(8, h.nameSize), EncodeBe(8, h.offset),
             EncodeBe(8, h.totalSize));
    hide EncodeBe, DecodeU64;
  }

  /** Where each field stands in a header. */
  lemma {:induction false} HeaderLayout(h: Header)
    ensures var s := EncodeHeader(h);
            && |s| == 48 && s[..8] == MAGIC
            && DecodeU64(s[8..16]) == h.kind && DecodeU64(s[16..24]) == h.payloadSize
            && DecodeU64(s[24..32]) == h.nameSize && DecodeU64(s[32..40]) == h.offset
            && DecodeU64(s[40..48]) == h.totalSize
  {
    U64RoundTrip(h.kind);
    U64RoundTrip(h.payloadSize);
    U64RoundTrip(h.nameSize);
    U64RoundTrip(h.offset);
    U64RoundTrip(h.totalSize);
    SixParts(MAGIC, EncodeBe(8, h.kind), EncodeBe(8, h.payloadSize), EncodeBe(8, h.nameSize), EncodeBe(8, h.offset),
             EncodeBe(8, h.totalSize));
    hide EncodeBe, DecodeU64;
  }

  /** Which fault of a header is reported: the magic comes before the name length, that before the kind. */
  lemma {:induction false} HeaderFaults(h: Header)
    ensures h.nameSize < 1 || h.nameSize > 4096 ==> DecodeHeader(EncodeHeader(h)) == Err(BadNameLength)
    ensures 1 <= h.nameSize <= 4096 && (h.kind < 1 || h.kind > 6) ==> DecodeHeader(EncodeHeader(h)) == Err(BadKind)
    ensures forall s: Bytes | |s| == 48 && s[..8] != EncodeHeader(h)[..8] :: DecodeHeader(s) == Err(BadMagic)
  {
    HeaderLayout(h);
    hide EncodeBe, DecodeU64, EncodeHeader;
  }

  /** Six parts of eight bytes are found where they were put. */
  lemma {:induction false} SixParts(a: Bytes, b: Bytes, c: Bytes, d: Bytes, e: Bytes, f: Bytes)
    requires |a| == 8 && |b| == 8 && |c| == 8 && |d| == 8 && |e| == 8 && |f| == 8
    ensures var s := a + b + c + d + e + f;
            && s[..8] == a && s[8..16] == b && s[16..24] == c
            && s[24..32] == d && s[32..40] == e && s[40..48] == f
  {
  }

  lemma {:induction false} DecodedU64IsCanonical(s: Bytes)
    requires |s| == 8
    ensures EncodeBe(8, DecodeU64(s)) == s
  {
    DecodeEncode(s);
  }

  /** A header the receiver accepts is the encoding of what it decoded: no two byte strings
      mean the same header. */
  lemma {:induction false} DecodedHeaderIsCanonical(s: Bytes)
    requires |s| == HEADER_BYTES && DecodeHeader(s).Ok?
    ensures EncodeHeader(DecodeHeader(s).value) == s
  {
    hide EncodeBe, DecodeU64;
    var h := DecodeHeader(s).value;
    DecodedU64IsCanonical(s[8..16]);
    DecodedU64IsCanonical(s[16..24]);
    DecodedU64IsCanonical(s[24..32]);
    DecodedU64IsCanonical(s[32..40]);
    DecodedU64IsCanonical(s[40..48]);
    SixFields(s);
  }

  lemma {:induction false} SixFields(s: Bytes)
    requires |s| == HEADER_BYTES
    ensures s == s[..8] + s[8..16] + s[16..24] + s[24..32] + s[32..40] + s[40..48]
  {
  }

  method MakeHeader(kind: U64, payloadSize: U64, nameSize: U64, offset: U64, totalSize: U64)
    returns (header: array<Byte>)
    ensures fresh(header)
    ensures header[..] == EncodeHeader(Header(kind, payloadSize, nameSize, offset, totalSize))
  {
    header := new Byte[HEADER_BYTES];
    for index := 0 to |MAGIC|
      invariant forall i | 0 <= i < index :: header[i] == MAGIC[i]
    {
      header[index] := MAGIC[index];
    }
    assert header[..8] == MAGIC;
    WriteU64Be(header, 8, kind);
    assert header[..16] == MAGIC + EncodeBe(8, kind);
    WriteU64Be(header, 16, payloadSize);
    assert header[..24] == MAGIC + EncodeBe(8, kind) + EncodeBe(8, payloadSize);
    WriteU64Be(header, 24, nameSize);
    assert header[..32] == MAGIC + EncodeBe(8, kind) + EncodeBe(8, payloadSize) + EncodeBe(8, nameSize);
    WriteU64Be(header, 32, offset);
    WriteU64Be(header, 40, totalSize);
  }
}
