/** core/transaction.py: the signed payload, its serialisation and its hash. */
module Transaction {
  import opened Bytes
  import opened Prelude

  datatype Transaction = Transaction(
    sender: string,
    recipient: string,
    amount: int,
    nonce: int,
    publicKey: Bytes,
    signature: Option<Bytes>)

  const UINT64_MAX: int := 0xFFFF_FFFF_FFFF_FFFF

  const ADDRESS_LEN: nat := 64

  const PUBKEY_SIZES: set<nat> := {1312, 1952, 2592}

  // ------------------------------------------------- hexadecimal addresses

  predicate IsHexDigit(c: char) {
    '0' <= c <= '9' || 'a' <= c <= 'f' || 'A' <= c <= 'F'
  }

  function HexValue(c: char): (v: Byte)
    requires IsHexDigit(c)
    ensures v < 16
  {
    if '0' <= c <= '9' then c as int as Byte - 48
    else if 'a' <= c <= 'f' then c as int as Byte - 87
    else c as int as Byte - 55
  }

  /** The ASCII white space that Python's bytes.fromhex skips between byte pairs. */
  predicate IsSpace(c: char) {
    c == ' ' || '\t' <= c <= '\r'
  }

  /** bytes.fromhex; None where it raises ValueError. */
  function FromHex(s: string): Option<Bytes> {
    if s == [] then Some([])
    else if IsSpace(s[0]) then FromHex(s[1..])
    else if |s| >= 2 && IsHexDigit(s[0]) && IsHexDigit(s[1]) then
      match FromHex(s[2..])
      case None => None
      case Some(rest) => Some([16 * HexValue(s[0]) + HexValue(s[1])] + rest)
    else None
  }

  function Spaces(s: string): nat {
    if s == [] then 0 else (if IsSpace(s[0]) then 1 else 0) + Spaces(s[1..])
  }

  function Lower(c: char): char {
    if 'A' <= c <= 'F' then (c as int + 32) as char else c
  }

  function LowerAll(s: string): string {
    seq(|s|, i requires 0 <= i < |s| => Lower(s[i]))
  }

  /** Each decoded byte takes two digits; white space takes room and yields none. */
  lemma {:induction false} FromHexLength(s: string)
    requires FromHex(s).Some?
    ensures 2 * |FromHex(s).value| == |s| - Spaces(s)
    decreases |s|
  {
    if s == [] {
    } else if IsSpace(s[0]) {
      FromHexLength(s[1..]);
    } else {
      FromHexLength(s[2..]);
      assert s[1..][0] == s[1] && s[1..][1..] == s[2..];
      assert Spaces(s) == Spaces(s[1..]) == Spaces(s[2..]);
    }
  }

  lemma SameDigit(c: char, d: char)
    requires IsHexDigit(c) && IsHexDigit(d) && HexValue(c) == HexValue(d)
    ensures Lower(c) == Lower(d)
  {
  }

  /** Decoding loses nothing but letter case when there is no white space. */
  lemma {:induction false} FromHexInjective(s: string, t: string)
    requires |s| == |t| && Spaces(s) == Spaces(t) == 0
    requires FromHex(s).Some? && FromHex(s) == FromHex(t)
    ensures LowerAll(s) == LowerAll(t)
    decreases |s|
  {
    if s != [] {
      var a, b := FromHex(s).value, FromHex(t).value;
      assert s[1..][0] == s[1] && s[1..][1..] == s[2..];
      assert t[1..][0] == t[1] && t[1..][1..] == t[2..];
      assert a[0] == b[0] && a[1..] == FromHex(s[2..]).value && b[1..] == FromHex(t[2..]).value;
      assert HexValue(s[0]) == HexValue(t[0]) && HexValue(s[1]) == HexValue(t[1]);
      SameDigit(s[0], t[0]);
      SameDigit(s[1], t[1]);
      FromHexInjective(s[2..], t[2..]);
      assert LowerAll(s) == [Lower(s[0]), Lower(s[1])] + LowerAll(s[2..]);
      assert LowerAll(t) == [Lower(t[0]), Lower(t[1])] + LowerAll(t[2..]);
    }
  }

  /** A digit's value is its position among the sixteen. */
  lemma HexValueIsPosition(c: char)
    requires IsHexDigit(c)
    ensures "0123456789abcdef"[HexValue(c) as int] == Lower(c)
  {
  }

  /** Byte i of a string without white space is spelled by its digits 2i and 2i + 1, the
      higher one first. */
  lemma {:induction false} FromHexBytes(s: string, i: nat)
    requires Spaces(s) == 0 && FromHex(s).Some? && i < |FromHex(s).value|
    ensures 2 * i + 1 < |s| && IsHexDigit(s[2 * i]) && IsHexDigit(s[2 * i + 1])
    ensures FromHex(s).value[i] as int == 16 * HexValue(s[2 * i]) as int + HexValue(s[2 * i + 1]) as int
    decreases i
  {
    assert s[1..][0] == s[1] && s[1..][1..] == s[2..];
    if i > 0 {
      FromHexBytes(s[2..], i - 1);
    }
  }

  /** Digits and white space alone are accepted, and the digits only in adjacent pairs: one
      with an even number of digits before it is followed by another. */
  ghost predicate Paired(s: string) {
    && (forall i | 0 <= i < |s| :: IsHexDigit(s[i]) || IsSpace(s[i]))
    && forall i | 0 <= i < |s| && IsHexDigit(s[i]) && (i - Spaces(s[..i])) % 2 == 0 :: i + 1 < |s| && IsHexDigit(s[i + 1])
  }

  lemma SpacesOfTail(s: string, k: nat, i: nat)
    requires k <= i <= |s|
    ensures Spaces(s[..i]) == Spaces(s[..k]) + Spaces(s[k..][..i - k])
  {
    SpacesConcat(s[..k], s[k..][..i - k]);
    assert s[..k] + s[k..][..i - k] == s[..i];
  }

  lemma {:induction false} SpacesConcat(s: string, t: string)
    ensures Spaces(s + t) == Spaces(s) + Spaces(t)
  {
    if s == [] {
      assert s + t == t;
    } else {
      SpacesConcat(s[1..], t);
      assert (s + t)[1..] == s[1..] + t;
    }
  }

  /** Cutting off a prefix with an even number of digits changes no pair of the rest. */
  lemma PairedTail(s: string, k: nat)
    requires k <= |s| && (k - Spaces(s[..k])) % 2 == 0
    requires forall i | 0 <= i < k :: IsHexDigit(s[i]) || IsSpace(s[i])
    requires forall i | 0 <= i < k && IsHexDigit(s[i]) && (i - Spaces(s[..i])) % 2 == 0 :: i + 1 < |s| && IsHexDigit(s[i + 1])
    ensures Paired(s) <==> Paired(s[k..])
  {
    hide Spaces;
    var t := s[k..];
    forall i | 0 <= i < |t| ensures t[i] == s[k + i] && ((k + i - Spaces(s[..k + i])) % 2 == 0 <==> (i - Spaces(t[..i])) % 2 == 0) {
      SpacesOfTail(s, k, k + i);
    }
    if Paired(t) {
      forall i | 0 <= i < |s| ensures IsHexDigit(s[i]) || IsSpace(s[i]) {
        assert i >= k ==> s[i] == t[i - k];
      }
      forall i | 0 <= i < |s| && IsHexDigit(s[i]) && (i - Spaces(s[..i])) % 2 == 0 ensures i + 1 < |s| && IsHexDigit(s[i + 1]) {
        assert i >= k ==> s[i] == t[i - k];
      }
    }
  }

  /** Exactly what is accepted as an address, its length apart. */
  lemma {:induction false} FromHexAcceptsIff(s: string)
    ensures FromHex(s).Some? <==> Paired(s)
    decreases |s|
  {
    if s == [] {
    } else if IsSpace(s[0]) {
      assert s[..1] == [s[0]] && Spaces(s[..1]) == 1;
      PairedTail(s, 1);
      FromHexAcceptsIff(s[1..]);
    } else if |s| >= 2 && IsHexDigit(s[0]) && IsHexDigit(s[1]) {
      assert s[..2][1..] == [s[1]] && Spaces(s[..1]) == Spaces([s[1]]) == Spaces(s[..2]) == 0;
      PairedTail(s, 2);
      FromHexAcceptsIff(s[2..]);
    } else {
      assert s[..0] == [] && Spaces(s[..0]) == 0;
    }
  }

  function WithoutSpace(s: string): string {
    if s == [] then [] else (if IsSpace(s[0]) then [] else [s[0]]) + WithoutSpace(s[1..])
  }

  /** White space counts for nothing in what is decoded. */
  lemma {:induction false} FromHexStrips(s: string)
    requires FromHex(s).Some?
    ensures FromHex(WithoutSpace(s)) == FromHex(s)
    decreases |s|
  {
    if s == [] {
    } else if IsSpace(s[0]) {
      FromHexStrips(s[1..]);
      assert WithoutSpace(s) == WithoutSpace(s[1..]);
    } else {
      FromHexStrips(s[2..]);
      assert s[1..][0] == s[1] && s[1..][1..] == s[2..];
      var t := WithoutSpace(s);
      assert WithoutSpace(s[1..]) == [s[1]] + WithoutSpace(s[2..]);
      assert t == [s[0]] + WithoutSpace(s[1..]);
      assert t[2..] == WithoutSpace(s[2..]);
    }
  }

  // ------------------------------------------------- big-endian integers

  function BigEndian(v: nat, n: nat): (b: Bytes)
    ensures |b| == n
  {
    if n == 0 then [] else BigEndian(v / 256, n - 1) + [(v % 256) as Byte]
  }

  lemma {:induction false} BigEndianInjective(v: nat, w: nat, n: nat)
    requires v < Pow256(n) && w < Pow256(n)
    requires BigEndian(v, n) == BigEndian(w, n)
    ensures v == w
  {
    if n > 0 {
      var a, b := BigEndian(v, n), BigEndian(w, n);
      assert a[..n - 1] == BigEndian(v / 256, n - 1) && b[..n - 1] == BigEndian(w / 256, n - 1);
      assert a[n - 1] == b[n - 1];
      BigEndianInjective(v / 256, w / 256, n - 1);
    }
  }

  /** Reading the field gives the number back. */
  lemma {:induction false} BigEndianSpells(v: nat, n: nat)
    requires v < Pow256(n)
    ensures Value(BigEndian(v, n)) == v
  {
    if n > 0 {
      BigEndianSpells(v / 256, n - 1);
      ValueOfLast(BigEndian(v / 256, n - 1), (v % 256) as Byte);
    }
  }

  // ------------------------------------------------- the transaction

  /** What __post_init__ lets through. */
  predicate Accepted(tx: Transaction) {
    && 1 <= tx.amount <= UINT64_MAX
    && 0 <= tx.nonce <= UINT64_MAX
    && |tx.sender| == ADDRESS_LEN && FromHex(tx.sender).Some?
    && |tx.recipient| == ADDRESS_LEN && FromHex(tx.recipient).Some?
    && |tx.publicKey| in PUBKEY_SIZES
  }

  function AddressBytes(s: string): Bytes {
    match FromHex(s)
    case Some(b) => b
    case None => []
  }

  function ToBytes(tx: Transaction): Bytes {
    AddressBytes(tx.sender) + AddressBytes(tx.recipient)
    + BigEndian(Max(tx.amount, 0), 8) + BigEndian(Max(tx.nonce, 0), 8)
    + BigEndian(|tx.publicKey|, 4) + tx.publicKey
  }

  /** What is accepted is what the fields of the serialisation hold: eight bytes the amount,
      which is not zero, and eight the nonce; two address strings of 64 characters that
      decode; and a key of one of the three sizes. */
  lemma AcceptedIffFieldsHold(tx: Transaction)
    ensures Accepted(tx) <==>
              && tx.amount != 0 && (tx.amount >= 0 && Value(BigEndian(tx.amount, 8)) == tx.amount)
              && (tx.nonce >= 0 && Value(BigEndian(tx.nonce, 8)) == tx.nonce)
              && |tx.sender| == 64 && Paired(tx.sender) && |tx.recipient| == 64 && Paired(tx.recipient)
              && (|tx.publicKey| == 1312 || |tx.publicKey| == 1952 || |tx.publicKey| == 2592)
  {
    hide FromHex, BigEndian, Pow256, Value, Paired;
    Pow256OfEight();
    FromHexAcceptsIff(tx.sender);
    FromHexAcceptsIff(tx.recipient);
    if tx.amount >= 0 {
      HeldIff(tx.amount, 8);
    }
    if tx.nonce >= 0 {
      HeldIff(tx.nonce, 8);
    }
  }

  lemma HeldIff(v: nat, n: nat)
    ensures Value(BigEndian(v, n)) == v <==> v < Pow256(n)
  {
    ValueBelow(BigEndian(v, n));
    if v < Pow256(n) {
      BigEndianSpells(v, n);
    }
  }

  /** The layout, read back: behind the two addresses eight bytes spell the amount, eight
      the nonce and four the length of the key, and the key is the rest. */
  lemma ToBytesLayout(tx: Transaction)
    requires Accepted(tx)
    ensures var b, n := ToBytes(tx), |FromHex(tx.sender).value| + |FromHex(tx.recipient).value|;
            && |b| == n + 20 + |tx.publicKey|
            && b[..n] == FromHex(tx.sender).value + FromHex(tx.recipient).value
            && Value(b[n..n + 8]) == tx.amount && Value(b[n + 8..n + 16]) == tx.nonce
            && Value(b[n + 16..n + 20]) == |tx.publicKey| && b[n + 20..] == tx.publicKey
  {
    hide FromHex, BigEndian, Pow256, Value;
    Pow256OfEight();
    BigEndianSpells(tx.amount, 8);
    BigEndianSpells(tx.nonce, 8);
    BigEndianSpells(|tx.publicKey|, 4);
    FieldsAt(FromHex(tx.sender).value + FromHex(tx.recipient).value,
             BigEndian(tx.amount, 8), BigEndian(tx.nonce, 8), BigEndian(|tx.publicKey|, 4), tx.publicKey);
  }

  lemma FieldsAt(a: Bytes, b: Bytes, c: Bytes, d: Bytes, e: Bytes)
    requires |b| == |c| == 8 && |d| == 4
    ensures var s, n := a + b + c + d + e, |a|;
            && s[..n] == a && s[n..n + 8] == b && s[n + 8..n + 16] == c && s[n + 16..n + 20] == d && s[n + 20..] == e
  {
  }

  /** Without white space the addresses take 32 bytes each, byte i of either being spelled
      by its digits 2i and 2i + 1. */
  lemma AddressLayout(tx: Transaction, i: nat)
    requires Accepted(tx) && Spaces(tx.sender) == Spaces(tx.recipient) == 0 && i < 32
    ensures |ToBytes(tx)| == 84 + |tx.publicKey|
    ensures IsHexDigit(tx.sender[2 * i]) && IsHexDigit(tx.sender[2 * i + 1])
    ensures IsHexDigit(tx.recipient[2 * i]) && IsHexDigit(tx.recipient[2 * i + 1])
    ensures ToBytes(tx)[i] as int == 16 * HexValue(tx.sender[2 * i]) as int + HexValue(tx.sender[2 * i + 1]) as int
    ensures ToBytes(tx)[32 + i] as int == 16 * HexValue(tx.recipient[2 * i]) as int + HexValue(tx.recipient[2 * i + 1]) as int
  {
    hide FromHex, BigEndian, Value, Spaces, HexValue;
    FromHexLength(tx.sender);
    FromHexLength(tx.recipient);
    ToBytesLayout(tx);
    FromHexBytes(tx.sender, i);
    FromHexBytes(tx.recipient, i);
    assert ToBytes(tx)[i] == ToBytes(tx)[..64][i] && ToBytes(tx)[32 + i] == ToBytes(tx)[..64][32 + i];
  }

  /** The fields that are signed agree, addresses up to letter case. */
  ghost predicate SameSignedFields(t: Transaction, u: Transaction) {
    && LowerAll(t.sender) == LowerAll(u.sender)
    && LowerAll(t.recipient) == LowerAll(u.recipient)
    && t.amount == u.amount
    && t.nonce == u.nonce
    && t.publicKey == u.publicKey
  }

  lemma FiveFieldsSplit(a: Bytes, b: Bytes, c: Bytes, d: Bytes, e: Bytes,
                        a': Bytes, b': Bytes, c': Bytes, d': Bytes, e': Bytes)
    requires |a| == |a'| && |b| == |b'| && |c| == |c'| && |d| == |d'|
    requires a + b + c + d + e == a' + b' + c' + d' + e'
    ensures a == a' && b == b' && c == c' && d == d' && e == e'
  {
    SplitsOnce(a + b + c + d, e, a' + b' + c' + d', e');
    SplitsOnce(a + b + c, d, a' + b' + c', d');
    SplitsOnce(a + b, c, a' + b', c');
    SplitsOnce(a, b, a', b');
  }

  /**
   * Equal serialisations agree on amount, nonce and public key, and on the two
   * decoded addresses run together.  The boundary between the addresses is lost
   * exactly when white space makes the decoded senders differ in length.
   */
  lemma ToBytesDetermines(t: Transaction, u: Transaction)
    requires Accepted(t) && Accepted(u) && ToBytes(t) == ToBytes(u)
    ensures t.amount == u.amount && t.nonce == u.nonce && t.publicKey == u.publicKey
    ensures FromHex(t.sender).value + FromHex(t.recipient).value
         == FromHex(u.sender).value + FromHex(u.recipient).value
    ensures Spaces(t.sender) == Spaces(u.sender) <==>
            FromHex(t.sender) == FromHex(u.sender) && FromHex(t.recipient) == FromHex(u.recipient)
  {
    hide FromHex, Spaces, BigEndian, Pow256;
    var a, b := FromHex(t.sender).value, FromHex(t.recipient).value;
    var c, d := FromHex(u.sender).value, FromHex(u.recipient).value;
    FromHexLength(t.sender);
    FromHexLength(t.recipient);
    FromHexLength(u.sender);
    FromHexLength(u.recipient);
    assert |ToBytes(t)| == |a + b| + 20 + |t.publicKey|;
    assert |ToBytes(u)| == |c + d| + 20 + |u.publicKey|;
    FiveFieldsSplit(a + b, BigEndian(t.amount, 8), BigEndian(t.nonce, 8), BigEndian(|t.publicKey|, 4), t.publicKey,
                    c + d, BigEndian(u.amount, 8), BigEndian(u.nonce, 8), BigEndian(|u.publicKey|, 4), u.publicKey);
    Pow256OfEight();
    BigEndianInjective(t.amount, u.amount, 8);
    BigEndianInjective(t.nonce, u.nonce, 8);
    if |a| == |c| {
      SplitsOnce(a, b, c, d);
    }
  }

  lemma Pow256OfEight()
    ensures Pow256(8) == UINT64_MAX + 1 && Pow256(4) == 0x1_0000_0000
  {
  }

  /** Without white space in the addresses the serialisation is injective. */
  lemma ToBytesInjective(t: Transaction, u: Transaction)
    requires Accepted(t) && Accepted(u) && ToBytes(t) == ToBytes(u)
    requires Spaces(t.sender) == Spaces(u.sender) == Spaces(t.recipient) == Spaces(u.recipient) == 0
    ensures SameSignedFields(t, u)
  {
    ToBytesDetermines(t, u);
    FromHexInjective(t.sender, u.sender);
    FromHexInjective(t.recipient, u.recipient);
  }

  // ------------------------- white space shifts bytes between the addresses

  function Repeat<T>(x: T, n: nat): (s: seq<T>)
    ensures |s| == n
  {
    if n == 0 then [] else [x] + Repeat(x, n - 1)
  }

  lemma TwoMore(c: char, n: nat)
    ensures Repeat(c, n + 2) == [c, c] + Repeat(c, n)
  {
    assert Repeat(c, n + 2) == [c] + Repeat(c, n + 1);
  }

  lemma {:induction false} FromHexOfZeros(n: nat, tail: string)
    requires FromHex(tail) == Some([])
    ensures FromHex(Repeat('0', 2 * n) + tail) == Some(Repeat<Byte>(0, n))
  {
    if n == 0 {
      assert [] + tail == tail;
    } else {
      var rest := Repeat('0', 2 * (n - 1)) + tail;
      var s := ['0', '0'] + rest;
      TwoMore('0', 2 * (n - 1));
      assert Repeat('0', 2 * n) + tail == s;
      FromHexOfZeros(n - 1, tail);
      assert s[0] == s[1] == '0' && s[2..] == rest;
    }
  }

  lemma {:induction false} RepeatCommutes<T>(x: T, m: nat, n: nat)
    ensures Repeat(x, m) + Repeat(x, n) == Repeat(x, m + n)
  {
    if m == 0 {
      assert Repeat(x, 0) + Repeat(x, n) == Repeat(x, n);
    } else {
      RepeatCommutes(x, m - 1, n);
      assert Repeat(x, m) + Repeat(x, n) == [x] + (Repeat(x, m - 1) + Repeat(x, n));
    }
  }

  /** An address of 32 zero bytes, and one of 31 zero bytes padded with two blanks. */
  lemma PaddedAddress()
    ensures var full, padded := Repeat('0', 64), Repeat('0', 62) + "  ";
            FromHex(full) == Some(Repeat<Byte>(0, 32)) && FromHex(padded) == Some(Repeat<Byte>(0, 31))
  {
    assert FromHex("") == Some([]);
    assert FromHex("  ") == Some([]) by { assert "  "[1..] == " " && " "[1..] == ""; }
    FromHexOfZeros(32, "");
    FromHexOfZeros(31, "  ");
    assert Repeat('0', 64) + "" == Repeat('0', 64);
  }

  /** Two accepted transactions with different senders and recipients and one
      serialisation: a blank-padded address lends its missing byte to the other. */
  lemma WhiteSpaceCollision()
    ensures var full, padded, key := Repeat('0', 64), Repeat('0', 62) + "  ", Repeat<Byte>(0, 1312);
            var t := Transaction(padded, full, 1, 0, key, None);
            var u := Transaction(full, padded, 1, 0, key, None);
            && Accepted(t) && Accepted(u)
            && ToBytes(t) == ToBytes(u)
            && FromHex(t.sender) != FromHex(u.sender)
            && FromHex(t.recipient) != FromHex(u.recipient)
  {
    hide FromHex, Repeat, BigEndian;
    PaddedAddress();
    RepeatCommutes<Byte>(0, 31, 32);
    RepeatCommutes<Byte>(0, 32, 31);
  }
}
