/**
 * base64_encode and base64_decode of stark_stwo/src/main.rs, against the canonical
 * strings of section 4 of RFC 4648.  Text is its bytes.
 */
module Base64 {
  import opened Bytes
  import opened Prelude

  const UPPER := "ABCDEFGHIJKLMNOPQRSTUVWXYZ"

  const LOWER := "abcdefghijklmnopqrstuvwxyz"

  const OTHERS := "0123456789+/"

  const ALPHABET := UPPER + LOWER + OTHERS

  const PAD: Byte := 61

  const INVALID: nat := 0xFF

  type Sextet = v: nat | v < 64

  // ------------------------------------------------------------ the alphabet

  /** Table 1 of RFC 4648. */
  function Letter(v: Sextet): Byte {
    if v < 26 then (65 + v) as Byte
    else if v < 52 then (97 + v - 26) as Byte
    else if v < 62 then (48 + v - 52) as Byte
    else if v == 62 then 43
    else 47
  }

  function Value(c: Byte): (v: nat)
    ensures v < 64 || v == INVALID
  {
    if 65 <= c <= 90 then c as nat - 65
    else if 97 <= c <= 122 then c as nat - 97 + 26
    else if 48 <= c <= 57 then c as nat - 48 + 52
    else if c == 43 then 62
    else if c == 47 then 63
    else INVALID
  }

  lemma ValueOfLetter(v: Sextet)
    ensures Value(Letter(v)) == v && Letter(v) != PAD
  {
  }

  lemma LetterOfValue(c: Byte)
    requires Value(c) != INVALID
    ensures Letter(Value(c)) == c
  {
  }

  lemma UpperLetter(i: nat)
    requires i < 26
    ensures |UPPER| == 26 && UPPER[i] as int == 65 + i
  {
  }

  lemma LowerLetter(i: nat)
    requires i < 26
    ensures |LOWER| == 26 && LOWER[i] as int == 97 + i
  {
  }

  lemma OtherLetter(i: nat)
    requires i < 12
    ensures |OTHERS| == 12 && OTHERS[i] as int == if i < 10 then 48 + i else if i == 10 then 43 else 47
  {
  }

  lemma Joined(a: string, b: string, c: string, i: nat)
    requires i < |a| + |b| + |c|
    ensures (a + b + c)[i] == if i < |a| then a[i] else if i < |a| + |b| then b[i - |a|] else c[i - |a| - |b|]
  {
  }

  /** The program's alphabet is Table 1's. */
  lemma AlphabetIsTable1(i: nat)
    requires i < 64
    ensures |ALPHABET| == 64 && ALPHABET[i] as int == Letter(i) as int
  {
    hide UPPER, LOWER, OTHERS;
    UpperLetter(i % 26);
    LowerLetter((i - 26) % 26);
    OtherLetter((i - 52) % 12);
    Joined(UPPER, LOWER, OTHERS, i);
  }

  // ------------------------------------------------------------ encoding

  predicate IsChunk(c: Bytes) {
    1 <= |c| <= 3
  }

  function At(c: Bytes, i: nat): (v: nat)
    ensures v < 256
  {
    if i < |c| then c[i] as nat else 0
  }

  function Sextet0(b0: nat): Sextet
    requires b0 < 256
  {
    b0 / 4
  }

  function Sextet1(b0: nat, b1: nat): Sextet
    requires b1 < 256
  {
    b0 % 4 * 16 + b1 / 16
  }

  function Sextet2(b1: nat, b2: nat): Sextet
    requires b2 < 256
  {
    b1 % 16 * 4 + b2 / 64
  }

  function Sextet3(b2: nat): Sextet {
    b2 % 64
  }

  /** Up to three bytes as four characters. */
  function EncodeChunk(c: Bytes): (r: Bytes)
    requires IsChunk(c)
    ensures |r| == 4
  {
    var b0, b1, b2 := At(c, 0), At(c, 1), At(c, 2);
    [Letter(Sextet0(b0)),
     Letter(Sextet1(b0, b1)),
     if |c| > 1 then Letter(Sextet2(b1, b2)) else PAD,
     if |c| > 2 then Letter(Sextet3(b2)) else PAD]
  }

  /** Three bytes and their four letters spell one number, to base 256 and to base 64; with
      fewer bytes the missing ones count as zero. */
  lemma ChunkSpells(c: Bytes)
    requires IsChunk(c)
    ensures var r, n := EncodeChunk(c), At(c, 0) * 0x1_0000 + At(c, 1) * 0x100 + At(c, 2);
            && (|c| == 3 ==> Value(r[0]) * 0x4_0000 + Value(r[1]) * 0x1000 + Value(r[2]) * 64 + Value(r[3]) == n)
            && (|c| == 2 ==> Value(r[0]) * 0x4_0000 + Value(r[1]) * 0x1000 + Value(r[2]) * 64 == n && r[3] == PAD)
            && (|c| == 1 ==> Value(r[0]) * 0x4_0000 + Value(r[1]) * 0x1000 == n && r[2] == r[3] == PAD)
  {
    hide Letter, Value, Sextet0, Sextet1, Sextet2, Sextet3;
    var b0, b1, b2 := At(c, 0), At(c, 1), At(c, 2);
    SextetsSpell(b0, b1, b2);
    ValueOfLetter(Sextet0(b0));
    ValueOfLetter(Sextet1(b0, b1));
    ValueOfLetter(Sextet2(b1, b2));
    ValueOfLetter(Sextet3(b2));
  }

  lemma SextetsSpell(b0: nat, b1: nat, b2: nat)
    requires b0 < 256 && b1 < 256 && b2 < 256
    ensures Sextet0(b0) * 0x4_0000 + Sextet1(b0, b1) * 0x1000 + Sextet2(b1, b2) * 64 + Sextet3(b2)
         == b0 * 0x1_0000 + b1 * 0x100 + b2
    ensures b2 == 0 ==> Sextet3(b2) == 0
    ensures b1 == b2 == 0 ==> Sextet2(b1, b2) == 0
  {
  }

  function Encoded(x: Bytes): (r: Bytes)
    ensures |r| % 4 == 0
  {
    hide EncodeChunk;
    if x == [] then []
    else
      var rest := Encoded(x[Min(3, |x|)..]);
      FourMore(|rest|);
      EncodeChunk(x[..Min(3, |x|)]) + rest
  }

  lemma FourMore(n: nat)
    ensures (4 + n) % 4 == n % 4
  {
  }

  /** The sextets of the three bytes packed into one 24-bit number. */
  lemma PackedSextets(b0: nat, b1: nat, b2: nat)
    requires b0 < 256 && b1 < 256 && b2 < 256
    ensures var combined := b0 * 0x1_0000 + b1 * 0x100 + b2;
            && combined / 0x4_0000 % 64 == Sextet0(b0)
            && combined / 0x1000 % 64 == Sextet1(b0, b1)
            && combined / 64 % 64 == Sextet2(b1, b2)
            && combined % 64 == Sextet3(b2)
  {
    var combined := b0 * 0x1_0000 + b1 * 0x100 + b2;
    QuotientUnique(combined, 0x4_0000, b0 / 4, b0 % 4 * 0x1_0000 + b1 * 0x100 + b2);
    QuotientUnique(combined, 0x1000, b0 * 16 + b1 / 16, b1 % 16 * 0x100 + b2);
    QuotientUnique(b0 * 16 + b1 / 16, 64, b0 / 4, b0 % 4 * 16 + b1 / 16);
    QuotientUnique(combined, 64, b0 * 1024 + b1 * 4 + b2 / 64, b2 % 64);
    QuotientUnique(b0 * 1024 + b1 * 4 + b2 / 64, 64, b0 * 16 + b1 / 16, b1 % 16 * 4 + b2 / 64);
    QuotientUnique(b0 / 4, 64, 0, b0 / 4);
  }

  // The bytes of four sextets, in the arithmetic of u8: a shift to the left loses bits.

  function Byte0(c0: Sextet, c1: Sextet): nat {
    c0 * 4 + c1 / 16
  }

  function Byte1(c1: Sextet, c2: Sextet): nat {
    c1 * 16 % 256 + c2 / 4
  }

  function Byte2(c2: nat, c3: Sextet): nat {
    c2 * 64 % 256 + c3
  }

  lemma Byte1Below(c1: Sextet, c2: Sextet)
    ensures Byte1(c1, c2) == c1 % 16 * 16 + c2 / 4 < 256
  {
    QuotientUnique(c1 * 16, 256, c1 / 16, c1 % 16 * 16);
  }

  lemma Byte2Below(c2: nat, c3: Sextet)
    ensures Byte2(c2, c3) == c2 % 4 * 64 + c3 < 256
  {
    QuotientUnique(c2 * 64, 256, c2 / 4, c2 % 4 * 64);
  }

  /** The bytes come back from their sextets. */
  lemma BytesOfSextets(b0: nat, b1: nat, b2: nat)
    requires b0 < 256 && b1 < 256 && b2 < 256
    ensures Byte0(Sextet0(b0), Sextet1(b0, b1)) == b0
    ensures Byte1(Sextet1(b0, b1), Sextet2(b1, b2)) == b1
    ensures Byte2(Sextet2(b1, b2), Sextet3(b2)) == b2
  {
    Byte1Below(Sextet1(b0, b1), Sextet2(b1, b2));
    Byte2Below(Sextet2(b1, b2), Sextet3(b2));
    hide Byte1, Byte2;
    QuotientUnique(b0 % 4 * 16 + b1 / 16, 16, b0 % 4, b1 / 16);
    QuotientUnique(b1 % 16 * 4 + b2 / 64, 4, b1 % 16, b2 / 64);
  }

  /** And the sextets from their bytes. */
  lemma SextetsOfBytes(c0: Sextet, c1: Sextet, c2: Sextet, c3: Sextet)
    ensures var x0, x1, x2 := Byte0(c0, c1), Byte1(c1, c2), Byte2(c2, c3);
            && x0 < 256 && x1 < 256 && x2 < 256
            && Sextet0(x0) == c0 && Sextet1(x0, x1) == c1 && Sextet2(x1, x2) == c2 && Sextet3(x2) == c3
            && (c2 % 4 == 0 ==> Sextet2(x1, 0) == c2) && (c1 % 16 == 0 ==> Sextet1(x0, 0) == c1)
  {
    Byte1Below(c1, c2);
    Byte2Below(c2, c3);
    hide Byte1, Byte2;
    QuotientUnique(c0 * 4 + c1 / 16, 4, c0, c1 / 16);
    QuotientUnique(c1 % 16 * 16 + c2 / 4, 16, c1 % 16, c2 / 4);
    QuotientUnique(c2 % 4 * 64 + c3, 64, c2 % 4, c3);
  }

  method EncodeFour(chunk: Bytes) returns (four: Bytes)
    requires IsChunk(chunk)
    ensures four == EncodeChunk(chunk)
  {
    hide Letter, Sextet0, Sextet1, Sextet2, Sextet3;
    var b1 := if |chunk| > 1 then chunk[1] as nat else 0;
    var b2 := if |chunk| > 2 then chunk[2] as nat else 0;
    var s0, s1, s2, s3 := Unpack(chunk[0] as nat, b1, b2);
    four := [LetterAt(s0), LetterAt(s1), if |chunk| > 1 then LetterAt(s2) else PAD, if |chunk| > 2 then LetterAt(s3) else PAD];
  }

  method Unpack(b0: nat, b1: nat, b2: nat) returns (s0: Sextet, s1: Sextet, s2: Sextet, s3: Sextet)
    requires b0 < 256 && b1 < 256 && b2 < 256
    ensures s0 == Sextet0(b0) && s1 == Sextet1(b0, b1) && s2 == Sextet2(b1, b2) && s3 == Sextet3(b2)
  {
    var combined := b0 * 0x1_0000 + b1 * 0x100 + b2;
    PackedSextets(b0, b1, b2);
    s0, s1 := combined / 0x4_0000 % 64, combined / 0x1000 % 64;
    s2, s3 := combined / 64 % 64, combined % 64;
  }

  method Encode(data: Bytes) returns (out: Bytes)
    ensures out == Encoded(data)
  {
    hide EncodeChunk;
    out := [];
    var i := 0;
    assert data[0..] == data;
    while i < |data|
      invariant i <= |data|
      invariant out + Encoded(data[i..]) == Encoded(data)
    {
      var four := EncodeFour(data[i..Min(i + 3, |data|)]);
      EncodedStep(data, i);
      ConcatAssociates(out, four, Encoded(data[Min(i + 3, |data|)..]));
      out := out + four;
      i := Min(i + 3, |data|);
    }
  }

  function LetterAt(v: Sextet): (c: Byte)
    ensures c == Letter(v)
  {
    AlphabetIsTable1(v);
    ALPHABET[v] as int as Byte
  }

  lemma EncodedStep(x: Bytes, i: nat)
    requires i < |x|
    ensures Encoded(x[i..]) == EncodeChunk(x[i..Min(i + 3, |x|)]) + Encoded(x[Min(i + 3, |x|)..])
  {
    hide EncodeChunk;
    var rest := x[i..];
    assert rest[..Min(3, |rest|)] == x[i..Min(i + 3, |x|)] && rest[Min(3, |rest|)..] == x[Min(i + 3, |x|)..];
  }

  // ------------------------------------------------------------ decoding

  datatype DecodeError = BadLength | BadCharacter

  /** The white space characters outside ASCII with three bytes in UTF-8. */
  predicate IsWideSpace(a: Byte, b: Byte, c: Byte) {
    || (a == 0xE1 && b == 0x9A && c == 0x80)
    || (a == 0xE2 && b == 0x80 && (0x80 <= c <= 0x8A || c == 0xA8 || c == 0xA9 || c == 0xAF))
    || (a == 0xE2 && b == 0x81 && c == 0x9F)
    || (a == 0xE3 && b == 0x80 && c == 0x80)
  }

  predicate IsSpace(b: Byte) {
    9 <= b <= 13 || b == 32
  }

  /** How many bytes the white space character at the start of the text has; 0 for none. */
  function SpaceBefore(s: Bytes): (n: nat)
    ensures n <= |s|
  {
    if |s| >= 1 && IsSpace(s[0]) then 1
    else if |s| >= 2 && s[0] == 0xC2 && (s[1] == 0x85 || s[1] == 0xA0) then 2
    else if |s| >= 3 && IsWideSpace(s[0], s[1], s[2]) then 3
    else 0
  }

  /** The same at its end. */
  function SpaceBehind(s: Bytes): (n: nat)
    ensures n <= |s|
  {
    var k := |s|;
    if k >= 1 && IsSpace(s[k - 1]) then 1
    else if k >= 2 && s[k - 2] == 0xC2 && (s[k - 1] == 0x85 || s[k - 1] == 0xA0) then 2
    else if k >= 3 && IsWideSpace(s[k - 3], s[k - 2], s[k - 1]) then 3
    else 0
  }

  function TrimStart(s: Bytes): Bytes {
    var n := SpaceBefore(s);
    if n > 0 then TrimStart(s[n..]) else s
  }

  function TrimEnd(s: Bytes): Bytes {
    var n := SpaceBehind(s);
    if n > 0 then TrimEnd(s[..|s| - n]) else s
  }

  /** str::trim: white space as Unicode has it, in the bytes of UTF-8. */
  function Trim(s: Bytes): Bytes {
    TrimEnd(TrimStart(s))
  }

  /** White space throughout: white space characters one after the other. */
  predicate AllSpace(s: Bytes) {
    s == [] || (SpaceBefore(s) > 0 && AllSpace(s[SpaceBefore(s)..]))
  }

  /** The characters of three bytes counted as white space are those of Unicode: U+1680,
      U+2000 to U+200A, U+2028, U+2029, U+202F, U+205F and U+3000. */
  lemma WideSpaceIsUnicode(a: Byte, b: Byte, c: Byte)
    requires 0xE0 <= a <= 0xEF && 0x80 <= b <= 0xBF && 0x80 <= c <= 0xBF
    ensures var code := (a as int - 0xE0) * 0x1000 + (b as int - 0x80) * 0x40 + (c as int - 0x80);
            IsWideSpace(a, b, c) <==> code == 0x1680 || 0x2000 <= code <= 0x200A || code == 0x2028 || code == 0x2029
                                      || code == 0x202F || code == 0x205F || code == 0x3000
  {
  }

  lemma SpaceIsSpace(s: Bytes)
    requires SpaceBehind(s) > 0
    ensures SpaceBefore(s[|s| - SpaceBehind(s)..]) == SpaceBehind(s)
  {
  }

  lemma SpaceBeforeKept(s: Bytes, t: Bytes)
    requires SpaceBefore(s) > 0
    ensures SpaceBefore(s + t) == SpaceBefore(s)
  {
  }

  lemma {:induction false} AllSpaceConcat(s: Bytes, t: Bytes)
    requires AllSpace(s) && AllSpace(t)
    ensures AllSpace(s + t)
    decreases |s|
  {
    hide SpaceBefore;
    if s == [] {
      assert s + t == t;
    } else {
      var n := SpaceBefore(s);
      SpaceBeforeKept(s, t);
      AllSpaceConcat(s[n..], t);
      assert (s + t)[n..] == s[n..] + t;
    }
  }

  lemma {:induction false} TrimStartCuts(s: Bytes) returns (cut: Bytes)
    ensures s == cut + TrimStart(s) && AllSpace(cut) && SpaceBefore(TrimStart(s)) == 0
    decreases |s|
  {
    hide SpaceBefore;
    var n := SpaceBefore(s);
    if n == 0 {
      cut := [];
    } else {
      var rest := TrimStartCuts(s[n..]);
      cut := s[..n] + rest;
      OneSpace(s);
      AllSpaceConcat(s[..n], rest);
    }
  }

  lemma OneSpace(s: Bytes)
    requires SpaceBefore(s) > 0
    ensures AllSpace(s[..SpaceBefore(s)])
  {
    var n := SpaceBefore(s);
    assert SpaceBefore(s[..n]) == n && s[..n][n..] == [];
  }

  lemma {:induction false} TrimEndCuts(s: Bytes) returns (cut: Bytes)
    ensures s == TrimEnd(s) + cut && AllSpace(cut) && SpaceBehind(TrimEnd(s)) == 0
    decreases |s|
  {
    hide SpaceBefore, SpaceBehind;
    var n := SpaceBehind(s);
    if n == 0 {
      cut := [];
    } else {
      var rest := TrimEndCuts(s[..|s| - n]);
      cut := rest + s[|s| - n..];
      SpaceIsSpace(s);
      OneSpace(s[|s| - n..]);
      assert s[|s| - n..][..n] == s[|s| - n..];
      AllSpaceConcat(rest, s[|s| - n..]);
    }
  }

  /** Trimming cuts white space off both ends and leaves none there. */
  lemma TrimCuts(s: Bytes)
    ensures exists before, behind :: AllSpace(before) && AllSpace(behind) && s == before + Trim(s) + behind
    ensures SpaceBefore(Trim(s)) == 0 && SpaceBehind(Trim(s)) == 0
  {
    hide SpaceBefore, SpaceBehind, AllSpace;
    var before := TrimStartCuts(s);
    var behind := TrimEndCuts(TrimStart(s));
    ConcatAssociates(before, Trim(s), behind);
    NoSpaceBeforePrefix(Trim(s), behind);
  }

  lemma NoSpaceBeforePrefix(s: Bytes, t: Bytes)
    requires SpaceBefore(s + t) == 0
    ensures SpaceBefore(s) == 0
  {
    if SpaceBefore(s) > 0 {
      SpaceBeforeKept(s, t);
    }
  }

  /** Four characters as up to three bytes.  A padding character has the value 0xFF. */
  function DecodeChunk(c: Bytes): Option<Bytes>
    requires |c| == 4
  {
    var c0, c1, c2, c3 := Value(c[0]), Value(c[1]), Value(c[2]), Value(c[3]);
    if c0 == INVALID || c1 == INVALID then None
    else if c[2] != PAD && c2 == INVALID then None
    else if c[3] != PAD && c3 == INVALID then None
    else
      Some([Byte0(c0, c1) as Byte]
         + (if c[2] != PAD then Byte1Below(c1, c2); [Byte1(c1, c2) as Byte] else [])
         + (if c[3] != PAD then Byte2Below(c2, c3); [Byte2(c2, c3) as Byte] else []))
  }

  /** What an accepted chunk decodes to.  Four letters spell three bytes; from three letters
      and from two the bits that fill no byte are dropped; and when padding stands before a
      letter, that letter is added to 192. */
  lemma QuantumSpells(c: Bytes)
    requires |c| == 4 && DecodeChunk(c).Some?
    ensures var x, hi := DecodeChunk(c).value, Value(c[0]) * 64 + Value(c[1]);
            && (c[2] != PAD && c[3] != PAD ==>
                  |x| == 3 && x[0] as int * 0x1_0000 + x[1] as int * 0x100 + x[2] as int == hi * 0x1000 + Value(c[2]) * 64 + Value(c[3]))
            && (c[2] != PAD && c[3] == PAD ==> |x| == 2 && x[0] as int * 0x100 + x[1] as int == (hi * 64 + Value(c[2])) / 4)
            && (c[2] == PAD ==> x[0] as int == hi / 16)
            && (c[2] == PAD && c[3] == PAD ==> |x| == 1)
            && (c[2] == PAD && c[3] != PAD ==> |x| == 2 && x[1] as int == 192 + Value(c[3]))
  {
    hide Value, Byte1, Byte2;
    NoPadLetter();
    var c0, c1, c2, c3 := Value(c[0]), Value(c[1]), Value(c[2]), Value(c[3]);
    if c[2] != PAD {
      Byte1Below(c1, c2);
      QuotientUnique(c0 * 0x1000 + c1 * 64 + c2, 4, c0 * 0x400 + c1 * 16 + c2 / 4, c2 % 4);
    } else {
      QuotientUnique(c0 * 64 + c1, 16, c0 * 4 + c1 / 16, c1 % 16);
    }
    if c[3] != PAD {
      Byte2Below(c2, c3);
    }
  }

  function Decoded(t: Bytes): Option<Bytes>
    requires |t| % 4 == 0
  {
    if t == [] then Some([])
    else
      match (DecodeChunk(t[..4]), Decoded(t[4..]))
      case (Some(a), Some(b)) => Some(a + b)
      case _ => None
  }

  function DecodeOf(s: Bytes): Result<Bytes, DecodeError> {
    var t := Trim(s);
    if |t| % 4 != 0 then Failure(BadLength)
    else if Decoded(t).None? then Failure(BadCharacter)
    else Success(Decoded(t).value)
  }

  method FillTable() returns (entries: seq<nat>)
    ensures |entries| == 256 && forall c: Byte :: entries[c as int] == Value(c)
  {
    var table := new nat[256](_ => INVALID);
    for i := 0 to 64
      invariant forall c: Byte :: table[c as int] == if Value(c) < i then Value(c) else INVALID
    {
      AlphabetIsTable1(i);
      ValueOfLetter(i);
      forall c: Byte | Value(c) == i ensures c == Letter(i) { LetterOfValue(c); }
      table[ALPHABET[i] as int] := i;
    }
    entries := table[..];
  }

  method DecodeFour(table: seq<nat>, chunk: Bytes) returns (r: Option<Bytes>)
    requires |table| == 256 && (forall c: Byte :: table[c as int] == Value(c)) && |chunk| == 4
    ensures r == DecodeChunk(chunk)
  {
    hide Value, Byte1, Byte2;
    var c0, c1 := table[chunk[0] as int], table[chunk[1] as int];
    var c2, c3 := table[chunk[2] as int], table[chunk[3] as int];
    assert c0 == Value(chunk[0]) && c1 == Value(chunk[1]) && c2 == Value(chunk[2]) && c3 == Value(chunk[3]);
    if c0 == INVALID || c1 == INVALID {
      return None;
    }
    var first: Bytes := [Byte0(c0, c1) as Byte];
    var bytes := first + [];
    if chunk[2] != PAD {
      if c2 == INVALID {
        return None;
      }
      Byte1Below(c1, c2);
      bytes := first + [Byte1(c1, c2) as Byte];
    }
    var second := bytes;
    bytes := second + [];
    if chunk[3] != PAD {
      if c3 == INVALID {
        return None;
      }
      Byte2Below(c2, c3);
      bytes := second + [Byte2(c2, c3) as Byte];
    }
    r := Some(bytes);
  }

  method Decode(text: Bytes) returns (r: Result<Bytes, DecodeError>)
    ensures r == DecodeOf(text)
  {
    hide DecodeChunk, Value, Trim, Decoded, Behind;
    var s := Trim(text);
    var table := FillTable();
    if |s| % 4 != 0 {
      return Failure(BadLength);
    }
    var out: Bytes := [];
    var i := 0;
    assert s[0..] == s;
    BehindNothing(Decoded(s));
    while i < |s|
      invariant i <= |s| && i % 4 == 0
      invariant Behind(out, Decoded(s[i..])) == Decoded(s)
    {
      var bytes := DecodeFour(table, s[i..i + 4]);
      DecodedStep(out, s, i);
      if bytes.None? {
        return Failure(BadCharacter);
      }
      out := out + bytes.value;
      i := i + 4;
    }
    assert s[i..] == [];
    NothingDecoded(out);
    r := Success(out);
  }

  /** What is decoded so far, in front of what the rest decodes to. */
  function Behind(out: Bytes, rest: Option<Bytes>): Option<Bytes> {
    match rest
    case None => None
    case Some(x) => Some(out + x)
  }

  lemma BehindNothing(rest: Option<Bytes>)
    ensures Behind([], rest) == rest
  {
    assert rest.Some? ==> [] + rest.value == rest.value;
  }

  lemma NothingDecoded(out: Bytes)
    ensures Behind(out, Decoded([])) == Some(out)
  {
    assert out + [] == out;
  }

  lemma DecodedStep(out: Bytes, t: Bytes, i: nat)
    requires i + 4 <= |t| && |t| % 4 == 0 && i % 4 == 0
    ensures Behind(out, Decoded(t[i..])) == match DecodeChunk(t[i..i + 4])
                                            case None => None
                                            case Some(a) => Behind(out + a, Decoded(t[i + 4..]))
  {
    hide DecodeChunk;
    var rest := t[i..];
    assert rest[..4] == t[i..i + 4] && rest[4..] == t[i + 4..];
    if DecodeChunk(rest[..4]).Some? && Decoded(rest[4..]).Some? {
      ConcatAssociates(out, DecodeChunk(rest[..4]).value, Decoded(rest[4..]).value);
    }
  }

  // ------------------------------------------------------------ round trip

  lemma ChunkValues(c: Bytes)
    requires IsChunk(c)
    ensures var e, b0, b1, b2 := EncodeChunk(c), At(c, 0), At(c, 1), At(c, 2);
            && Value(e[0]) == Sextet0(b0) && Value(e[1]) == Sextet1(b0, b1)
            && (if |c| > 1 then Value(e[2]) == Sextet2(b1, b2) && e[2] != PAD else e[2] == PAD && b1 == 0)
            && (if |c| > 2 then Value(e[3]) == Sextet3(b2) && e[3] != PAD else e[3] == PAD && b2 == 0)
  {
    var b0, b1, b2 := At(c, 0), At(c, 1), At(c, 2);
    ValueOfLetter(Sextet0(b0));
    ValueOfLetter(Sextet1(b0, b1));
    ValueOfLetter(Sextet2(b1, b2));
    ValueOfLetter(Sextet3(b2));
    hide Letter, Value, Sextet0, Sextet1, Sextet2, Sextet3;
  }

  /** A chunk decodes by its characters' values. */
  lemma DecodesTo(e: Bytes, c: Bytes)
    requires |e| == 4 && IsChunk(c) && Value(e[0]) != INVALID && Value(e[1]) != INVALID
    requires Byte0(Value(e[0]), Value(e[1])) == c[0] as nat
    requires if |c| > 1 then e[2] != PAD && Value(e[2]) != INVALID && Byte1(Value(e[1]), Value(e[2])) == c[1] as nat else e[2] == PAD
    requires if |c| > 2 then e[3] != PAD && Value(e[3]) != INVALID && Byte2(Value(e[2]), Value(e[3])) == c[2] as nat else e[3] == PAD
    ensures DecodeChunk(e) == Some(c)
  {
    hide Value, Byte0, Byte1, Byte2;
    if |c| == 1 {
      assert c == [c[0]] + [] + [];
    } else if |c| == 2 {
      assert c == [c[0]] + [c[1]] + [];
    } else {
      assert c == [c[0]] + [c[1]] + [c[2]];
    }
  }

  lemma ChunkRoundTrip(c: Bytes)
    requires IsChunk(c)
    ensures DecodeChunk(EncodeChunk(c)) == Some(c)
  {
    hide EncodeChunk, DecodeChunk, Value, Sextet0, Sextet1, Sextet2, Sextet3, Byte0, Byte1, Byte2;
    ChunkValues(c);
    BytesOfSextets(At(c, 0), At(c, 1), At(c, 2));
    DecodesTo(EncodeChunk(c), c);
  }

  lemma {:induction false} EncodedLength(x: Bytes)
    ensures |Encoded(x)| == 4 * ((|x| + 2) / 3)
  {
    hide EncodeChunk;
    if x != [] {
      EncodedLength(x[Min(3, |x|)..]);
    }
  }

  lemma {:induction false} EncodedDecodes(x: Bytes)
    ensures Decoded(Encoded(x)) == Some(x)
  {
    hide EncodeChunk, DecodeChunk;
    if x != [] {
      var n := Min(3, |x|);
      EncodedDecodes(x[n..]);
      ChunkRoundTrip(x[..n]);
      var e := Encoded(x);
      assert e[..4] == EncodeChunk(x[..n]) && e[4..] == Encoded(x[n..]);
      assert x[..n] + x[n..] == x;
    }
  }

  /** Encodings are visible ASCII. */
  predicate IsVisible(b: Byte) {
    !IsSpace(b) && b < 0x80
  }

  lemma {:induction false} NoSpaceIn(x: Bytes)
    ensures forall i | 0 <= i < |Encoded(x)| :: IsVisible(Encoded(x)[i])
  {
    if x != [] {
      hide Encoded;
      var n := Min(3, |x|);
      NoSpaceIn(x[n..]);
      EncodedStep(x, 0);
      assert x[0..] == x && x[0..Min(0 + 3, |x|)] == x[..n];
    }
  }

  lemma {:induction false} NothingToTrim(t: Bytes)
    requires forall i | 0 <= i < |t| :: IsVisible(t[i])
    ensures Trim(t) == t
  {
    if t != [] {
      assert IsVisible(t[0]) && IsVisible(t[|t| - 1]);
    }
  }

  /** decode(encode(x)) is x for every byte string, and the encoding's length is fixed. */
  lemma RoundTrip(x: Bytes)
    ensures |Encoded(x)| == 4 * ((|x| + 2) / 3)
    ensures DecodeOf(Encoded(x)) == Success(x)
  {
    hide Encoded, Decoded, IsVisible, Trim;
    EncodedLength(x);
    EncodedDecodes(x);
    NoSpaceIn(x);
    NothingToTrim(Encoded(x));
  }

  // ------------------------------------------------------------ canonical text

  predicate IsLetter(c: Byte) {
    Value(c) != INVALID
  }

  predicate FullQuantum(c: Bytes) {
    |c| == 4 && IsLetter(c[0]) && IsLetter(c[1]) && IsLetter(c[2]) && IsLetter(c[3])
  }

  /** The last quantum: full, or padded with the unused bits zero. */
  predicate FinalQuantum(c: Bytes) {
    || FullQuantum(c)
    || (|c| == 4 && IsLetter(c[0]) && IsLetter(c[1]) && IsLetter(c[2]) && c[3] == PAD && Value(c[2]) % 4 == 0)
    || (|c| == 4 && IsLetter(c[0]) && IsLetter(c[1]) && c[2] == c[3] == PAD && Value(c[1]) % 16 == 0)
  }

  predicate Canonical(t: Bytes) {
    t == [] || FinalQuantum(t) || (|t| > 4 && FullQuantum(t[..4]) && Canonical(t[4..]))
  }

  /** Every encoding of a chunk is a last quantum, and of three bytes a full one. */
  lemma ChunkIsQuantum(c: Bytes)
    requires IsChunk(c)
    ensures FinalQuantum(EncodeChunk(c)) && (|c| == 3 ==> FullQuantum(EncodeChunk(c)))
  {
    hide EncodeChunk, Value;
    ChunkValues(c);
    NoPadLetter();
  }

  lemma {:induction false} EncodedIsCanonical(x: Bytes)
    ensures Canonical(Encoded(x))
  {
    hide EncodeChunk, FullQuantum, FinalQuantum;
    if x != [] {
      var n := Min(3, |x|);
      ChunkIsQuantum(x[..n]);
      EncodedIsCanonical(x[n..]);
      var e := Encoded(x);
      assert e[..4] == EncodeChunk(x[..n]) && e[4..] == Encoded(x[n..]);
      if x[n..] == [] {
        assert e == EncodeChunk(x[..n]);
      } else {
        EncodedDecodes(x[n..]);
      }
    }
  }

  /** A chunk encodes by its bytes' sextets. */
  lemma EncodesTo(x: Bytes, c: Bytes)
    requires IsChunk(x) && |c| == 4
    requires c[0] == Letter(Sextet0(At(x, 0))) && c[1] == Letter(Sextet1(At(x, 0), At(x, 1)))
    requires c[2] == if |x| > 1 then Letter(Sextet2(At(x, 1), At(x, 2))) else PAD
    requires c[3] == if |x| > 2 then Letter(Sextet3(At(x, 2))) else PAD
    ensures EncodeChunk(x) == c
  {
    hide Letter, Sextet0, Sextet1, Sextet2, Sextet3;
  }

  /** How many bytes a last quantum holds. */
  function QuantumSize(c: Bytes): (n: nat)
    requires |c| == 4
    ensures 1 <= n <= 3
  {
    if c[2] == PAD then 1 else if c[3] == PAD then 2 else 3
  }

  /** A last quantum decodes to a chunk that encodes to it. */
  lemma QuantumRoundTrip(c: Bytes)
    requires FinalQuantum(c)
    ensures |c| == 4 && DecodeChunk(c).Some? && IsChunk(DecodeChunk(c).value) && EncodeChunk(DecodeChunk(c).value) == c
    ensures FullQuantum(c) ==> |DecodeChunk(c).value| == 3
  {
    hide Letter, Value, Sextet0, Sextet1, Sextet2, Sextet3, Byte0, Byte1, Byte2, EncodeChunk, DecodeChunk;
    NoPadLetter();
    LetterOfValue(c[0]);
    LetterOfValue(c[1]);
    var c0, c1: nat, n := Value(c[0]), Value(c[1]), QuantumSize(c);
    var c2 := if n > 1 then Value(c[2]) else 0;
    var c3 := if n > 2 then Value(c[3]) else 0;
    SextetsOfBytes(c0, c1, c2, c3);
    var x: Bytes := [Byte0(c0, c1) as Byte, Byte1(c1, c2) as Byte, Byte2(c2, c3) as Byte][..n];
    if n > 1 {
      LetterOfValue(c[2]);
    }
    if n > 2 {
      LetterOfValue(c[3]);
    }
    DecodesTo(c, x);
    EncodesTo(x, c);
  }

  lemma NoPadLetter()
    ensures Value(PAD) == INVALID
  {
  }

  lemma {:induction false} CanonicalReencodes(t: Bytes)
    requires Canonical(t)
    ensures |t| % 4 == 0 && Decoded(t).Some? && Encoded(Decoded(t).value) == t
  {
    hide EncodeChunk, DecodeChunk, FullQuantum, FinalQuantum;
    if t == [] {
    } else if FinalQuantum(t) {
      QuantumRoundTrip(t);
      var x := DecodeChunk(t).value;
      assert t[..4] == t && t[4..] == [];
      assert Decoded(t) == Some(x + []) && x + [] == x;
      assert x[..|x|] == x && x[|x|..] == [];
    } else {
      QuantumOfFull(t[..4]);
      QuantumRoundTrip(t[..4]);
      CanonicalReencodes(t[4..]);
      var a, b := DecodeChunk(t[..4]).value, Decoded(t[4..]).value;
      assert (a + b)[..3] == a && (a + b)[3..] == b;
      assert t[..4] + t[4..] == t;
    }
  }

  lemma QuantumOfFull(c: Bytes)
    requires FullQuantum(c)
    ensures FinalQuantum(c)
  {
  }

  /** The texts the codec reproduces, up to surrounding white space, are exactly the
      canonical ones. */
  lemma ReproducesExactlyCanonical(s: Bytes)
    ensures (DecodeOf(s).Success? && Encoded(DecodeOf(s).value) == Trim(s)) <==> Canonical(Trim(s))
  {
    var t := Trim(s);
    hide Trim, Decoded, Encoded, Canonical;
    if Canonical(t) {
      CanonicalReencodes(t);
    }
    if DecodeOf(s).Success? && Encoded(DecodeOf(s).value) == t {
      EncodedIsCanonical(DecodeOf(s).value);
    }
  }

  // ------------------------------------------------------------ lenience

  /** What a chunk needs to be accepted: padding may stand anywhere in its second half. */
  predicate Tolerated(c: Bytes) {
    && |c| == 4 && IsLetter(c[0]) && IsLetter(c[1])
    && (IsLetter(c[2]) || c[2] == PAD) && (IsLetter(c[3]) || c[3] == PAD)
  }

  predicate AllTolerated(t: Bytes) {
    t == [] || (|t| >= 4 && Tolerated(t[..4]) && AllTolerated(t[4..]))
  }

  lemma {:induction false} DecodedIffTolerated(t: Bytes)
    requires |t| % 4 == 0
    ensures Decoded(t).Some? <==> AllTolerated(t)
  {
    if t != [] {
      DecodedIffTolerated(t[4..]);
      NoPadLetter();
    }
  }

  /** Exactly what the decoder accepts. */
  lemma AcceptsExactly(s: Bytes)
    ensures DecodeOf(s).Success? <==> |Trim(s)| % 4 == 0 && AllTolerated(Trim(s))
    ensures DecodeOf(s) == Failure(BadLength) <==> |Trim(s)| % 4 != 0
  {
    if |Trim(s)| % 4 == 0 {
      DecodedIffTolerated(Trim(s));
    }
  }

  /** "QQ=B" is accepted: two bytes, the second from the padding character's table entry. */
  lemma PaddingInsideIsAccepted()
    ensures DecodeOf([81, 81, 61, 66]) == Success([65, 193]) && !Canonical([81, 81, 61, 66])
  {
    var t: Bytes := [81, 81, 61, 66];
    assert t[..4] == t && t[4..] == [];
    assert Value(81) == 16 && Value(66) == 1 && Value(61) == INVALID;
    var d := DecodeChunk(t);
    assert d.Some? && |d.value| == 2 && d.value[0] == 65 && d.value[1] == 193;
    assert d.value == [65, 193];
    assert d.value + [] == d.value;
    assert Decoded(t) == d;
    assert Trim(t) == t;
    assert !FinalQuantum(t);
  }
}
