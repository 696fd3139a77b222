/** Byte encodings: 32-byte words, the hash-to-field conversion, and the Borsh layout of the external data. */
module Encoding {
  import opened Bn254

  type Byte = b: nat | b < 256
  type Bytes = seq<Byte>

  function Pow256(n: nat): (p: nat)
    ensures p > 0
  {
    if n == 0 then 1 else 256 * Pow256(n - 1)
  }

  /** The last `n` bytes of a number, most significant first. */
  function ToBE(x: nat, n: nat): (s: Bytes)
    ensures |s| == n
  {
    if n == 0 then [] else ToBE(x / 256, n - 1) + [x % 256]
  }

  function FromBE(s: Bytes): nat {
    if s == [] then 0 else FromBE(s[..|s| - 1]) * 256 + s[|s| - 1]
  }

  /** The first `n` bytes of a number, least significant first. */
  function ToLE(x: nat, n: nat): (s: Bytes)
    ensures |s| == n
  {
    if n == 0 then [] else [x % 256] + ToLE(x / 256, n - 1)
  }

  function FromLE(s: Bytes): nat {
    if s == [] then 0 else s[0] + 256 * FromLE(s[1..])
  }

  lemma {:induction false} FromToBE(x: nat, n: nat)
    requires x < Pow256(n)
    ensures FromBE(ToBE(x, n)) == x
  {
    if n > 0 {
      FromToBE(x / 256, n - 1);
      FromAppended(ToBE(x / 256, n - 1), x % 256);
    }
  }

  lemma FromAppended(s: Bytes, b: Byte)
    ensures FromBE(s + [b]) == FromBE(s) * 256 + b
  {
    assert (s + [b])[..|s|] == s;
  }

  lemma {:induction false} ToFromBE(s: Bytes)
    ensures ToBE(FromBE(s), |s|) == s && FromBE(s) < Pow256(|s|)
  {
    if s != [] {
      ToFromBE(s[..|s| - 1]);
    }
  }

  lemma {:induction false} FromToLE(x: nat, n: nat)
    requires x < Pow256(n)
    ensures FromLE(ToLE(x, n)) == x
  {
    if n > 0 {
      FromToLE(x / 256, n - 1);
    }
  }

  /** In a big-endian word the first byte weighs most; in a little-endian one the last. */
  lemma {:induction false} FirstByteWeighsMost(b: Byte, s: Bytes)
    ensures FromBE([b] + s) == b * Pow256(|s|) + FromBE(s)
  {
    if s == [] {
      assert [b] + s == [] + [b];
      FromAppended([], b);
    } else {
      var rest, last := s[..|s| - 1], s[|s| - 1];
      FirstByteWeighsMost(b, rest);
      assert [b] + s == ([b] + rest) + [last] && s == rest + [last];
      FromAppended([b] + rest, last);
      FromAppended(rest, last);
    }
  }

  lemma {:induction false} LastByteWeighsMost(s: Bytes, b: Byte)
    ensures FromLE(s + [b]) == FromLE(s) + b * Pow256(|s|)
  {
    if s == [] {
      assert s + [b] == [b];
    } else {
      LastByteWeighsMost(s[1..], b);
      assert (s + [b])[1..] == s[1..] + [b];
    }
  }

  lemma WordBytes()
    ensures Pow256(32) == WORD_BOUND && Pow256(8) == U64_MAX + 1 && Pow256(4) == 0x1_0000_0000
  {
    assert Pow256(4) == 0x1_0000_0000;
    assert Pow256(8) == 0x1_0000_0000 * 0x1_0000_0000;
    assert Pow256(12) == Pow256(8) * 0x1_0000_0000;
    assert Pow256(16) == Pow256(12) * 0x1_0000_0000;
    assert Pow256(20) == Pow256(16) * 0x1_0000_0000;
    assert Pow256(24) == Pow256(20) * 0x1_0000_0000;
    assert Pow256(28) == Pow256(24) * 0x1_0000_0000;
    assert Pow256(32) == Pow256(28) * 0x1_0000_0000;
  }

  lemma SameBytes(a: Bytes, b: Bytes)
    requires |a| == |b|
    ensures a == b <==> FromBE(a) == FromBE(b)
  {
    ToFromBE(a);
    ToFromBE(b);
  }

  /**
   * Freshness of bytes is freshness of field elements: among canonical inputs of equal length, different bytes are
   * different elements.
   */
  lemma CanonicalBytes(a: Bytes, b: Bytes)
    requires |a| == |b| && FromBE(a) < P && FromBE(b) < P
    ensures a == b <==> Reduce(FromBE(a)) == Reduce(FromBE(b))
  {
    SameBytes(a, b);
    CanonicalFixed(FromBE(a));
    CanonicalFixed(FromBE(b));
  }

  lemma CanonicalFixed(x: Element)
    ensures Reduce(x) == x
  {
  }

  /** Without the canonical check an element has other encodings: every 32-byte encoding has a second one. */
  lemma SecondEncoding(a: Bytes) returns (c: Bytes)
    requires Pow256(|a|) == WORD_BOUND && FromBE(a) < P
    ensures |c| == |a| && c != a && Reduce(FromBE(c)) == Reduce(FromBE(a))
  {
    c := ToBE(FromBE(a) + P, |a|);
    FromToBE(FromBE(a) + P, |a|);
  }

  /** `bigToBytes32BE`: fill the array from its last byte. */
  method BigToBytes32BE(n: nat) returns (out: array<Byte>)
    ensures fresh(out) && out[..] == ToBE(n, 32)
  {
    out := new Byte[32](_ => 0);
    var v := n;
    var i := 32;
    while i > 0
      invariant 0 <= i <= 32
      invariant ToBE(n, 32) == ToBE(v, i) + out[i..]
    {
      i := i - 1;
      ghost var tail := out[i + 1..];
      out[i] := v % 256;
      assert out[i..] == [v % 256] + tail;
      v := v / 256;
    }
    assert out[..] == out[0..];
  }

  /** `bytesToBigBE`. */
  method BytesToBigBE(b: Bytes) returns (n: nat)
    ensures n == FromBE(b)
  {
    n := 0;
    for i := 0 to |b|
      invariant n == FromBE(b[..i])
    {
      assert b[..i + 1][..i] == b[..i];
      n := n * 256 + b[i];
    }
    assert b[..|b|] == b;
  }

  /** `fieldHashToDecimal`: read the digest from its last byte down, then reduce. */
  method FieldHashToDecimal(digest: Bytes) returns (n: Element)
    ensures n == Reduce(FromLE(digest))
  {
    var acc: nat := 0;
    var i := |digest|;
    while i > 0
      invariant 0 <= i <= |digest|
      invariant acc == FromLE(digest[i..])
    {
      i := i - 1;
      assert digest[i..][1..] == digest[i + 1..];
      acc := acc * 256 + digest[i];
    }
    assert digest[0..] == digest;
    n := acc % P;
  }

  // ---------- Borsh layout of the external data ----------

  datatype ExtData = ExtData(
    recipient: Word, extAmount: I64, encryptedOutput1: Bytes, encryptedOutput2: Bytes,
    fee: U64, feeRecipient: Word, mint: Word)

  /** A vector's length has to fit the u32 that precedes it. */
  predicate Encodable(e: ExtData) {
    |e.encryptedOutput1| < 0x1_0000_0000 && |e.encryptedOutput2| < 0x1_0000_0000
  }

  /** Two's complement. */
  function Unsigned(x: I64): U64 {
    x % (U64_MAX + 1)
  }

  function Signed(x: U64): I64 {
    if x > I64_MAX then x - (U64_MAX + 1) else x
  }

  lemma SignedUnsigned(x: I64)
    ensures Signed(Unsigned(x)) == x
  {
  }

  function EncodeI64(x: I64): Bytes {
    ToLE(Unsigned(x), 8)
  }

  function EncodeVec(b: Bytes): Bytes {
    ToLE(|b|, 4) + b
  }

  function Serialize(e: ExtData): Bytes {
    ToBE(e.recipient, 32) + (EncodeI64(e.extAmount) + (EncodeVec(e.encryptedOutput1) + (EncodeVec(e.encryptedOutput2)
    + (ToLE(e.fee, 8) + (ToBE(e.feeRecipient, 32) + ToBE(e.mint, 32))))))
  }

  // ---------- the client's side of the same layout ----------

  /** The kinds of field in a Borsh schema, with a value each. */
  datatype Field = Array32(word: Word) | Int64(signed: I64) | Uint64(unsigned: U64) | Vector(bytes: Bytes)

  function FieldBytes(f: Field): Bytes {
    match f
    case Array32(word) => ToBE(word, 32)
    case Int64(x) => ToLE(if x >= 0 then x else x + U64_MAX + 1, 8)
    case Uint64(x) => ToLE(x, 8)
    case Vector(bytes) => ToLE(|bytes|, 4) + bytes
  }

  /** Borsh writes the fields of a struct one after another, in the order of the schema. */
  function Borsh(fields: seq<Field>): Bytes {
    if fields == [] then [] else FieldBytes(fields[0]) + Borsh(fields[1..])
  }

  /** The client's schema, with its values. */
  function ClientFields(e: ExtData): seq<Field> {
    [Array32(e.recipient), Int64(e.extAmount), Vector(e.encryptedOutput1), Vector(e.encryptedOutput2),
     Uint64(e.fee), Array32(e.feeRecipient), Array32(e.mint)]
  }

  lemma NegativeWraps(x: I64)
    ensures Unsigned(x) == if x >= 0 then x else x + U64_MAX + 1
  {
  }

  lemma BorshStep(field: Field, fields: seq<Field>)
    ensures Borsh([field] + fields) == FieldBytes(field) + Borsh(fields)
  {
    assert ([field] + fields)[1..] == fields;
  }

  /** Client and program hash the same bytes. */
  lemma LayoutsAgree(e: ExtData)
    ensures Borsh(ClientFields(e)) == Serialize(e)
  {
    hide ToBE;
    hide ToLE;
    hide Borsh;
    NegativeWraps(e.extAmount);
    var f7 := [Array32(e.mint)];
    var f6 := [Array32(e.feeRecipient)] + f7;
    var f5 := [Uint64(e.fee)] + f6;
    var f4 := [Vector(e.encryptedOutput2)] + f5;
    var f3 := [Vector(e.encryptedOutput1)] + f4;
    var f2 := [Int64(e.extAmount)] + f3;
    assert ClientFields(e) == [Array32(e.recipient)] + f2;
    BorshNone();
    assert f7 == [Array32(e.mint)] + [];
    BorshStep(Array32(e.mint), []);
    BorshStep(Array32(e.feeRecipient), f7);
    BorshStep(Uint64(e.fee), f6);
    BorshStep(Vector(e.encryptedOutput2), f5);
    BorshStep(Vector(e.encryptedOutput1), f4);
    BorshStep(Int64(e.extAmount), f3);
    BorshStep(Array32(e.recipient), f2);
    assert ToBE(e.mint, 32) + [] == ToBE(e.mint, 32);
  }

  lemma BorshNone()
    ensures Borsh([]) == []
  {
  }

  datatype Parsed<T> = Read(value: T, rest: Bytes) | Malformed {
    predicate IsFailure() { Malformed? }
    function PropagateFailure<U>(): Parsed<U> requires Malformed? { Malformed }
    function Extract(): (T, Bytes) requires Read? { (value, rest) }
  }

  function Take(s: Bytes, n: nat): Parsed<Bytes> {
    if n <= |s| then Read(s[..n], s[n..]) else Malformed
  }

  function TakeWord(s: Bytes): (r: Parsed<Word>)
  {
    var (b, rest) :- Take(s, 32);
    ToFromBE(b);
    WordBytes();
    Read(FromBE(b), rest)
  }

  function TakeU64(s: Bytes): Parsed<U64> {
    var (b, rest) :- Take(s, 8);
    Read(FromLE(b) % (U64_MAX + 1), rest)
  }

  function TakeI64(s: Bytes): Parsed<I64> {
    var (x, rest) :- TakeU64(s);
    Read(Signed(x), rest)
  }

  function TakeVec(s: Bytes): Parsed<Bytes> {
    var (b, rest) :- Take(s, 4);
    Take(rest, FromLE(b))
  }

  function Parse(s: Bytes): Parsed<ExtData> {
    var (recipient, s1) :- TakeWord(s);
    var (extAmount, s2) :- TakeI64(s1);
    var (out1, s3) :- TakeVec(s2);
    var (out2, s4) :- TakeVec(s3);
    var (fee, s5) :- TakeU64(s4);
    var (feeRecipient, s6) :- TakeWord(s5);
    var (mint, s7) :- TakeWord(s6);
    Read(ExtData(recipient, extAmount, out1, out2, fee, feeRecipient, mint), s7)
  }

  lemma TakePrefix(a: Bytes, b: Bytes)
    ensures Take(a + b, |a|) == Read(a, b)
  {
    assert (a + b)[..|a|] == a && (a + b)[|a|..] == b;
  }

  lemma TakesWord(x: Word, rest: Bytes)
    ensures TakeWord(ToBE(x, 32) + rest) == Read(x, rest)
  {
    TakePrefix(ToBE(x, 32), rest);
    WordBytes();
    FromToBE(x, 32);
  }

  lemma TakesU64(x: U64, rest: Bytes)
    ensures TakeU64(ToLE(x, 8) + rest) == Read(x, rest)
  {
    hide ToLE;
    hide FromLE;
    TakePrefix(ToLE(x, 8), rest);
    WordBytes();
    FromToLE(x, 8);
  }

  lemma TakesI64(x: I64, rest: Bytes)
    ensures TakeI64(EncodeI64(x) + rest) == Read(x, rest)
  {
    SignedUnsigned(x);
    TakesU64(Unsigned(x), rest);
  }

  lemma TakesVec(b: Bytes, rest: Bytes)
    requires |b| < 0x1_0000_0000
    ensures TakeVec(EncodeVec(b) + rest) == Read(b, rest)
  {
    assert EncodeVec(b) + rest == ToLE(|b|, 4) + (b + rest);
    TakePrefix(ToLE(|b|, 4), b + rest);
    WordBytes();
    FromToLE(|b|, 4);
    TakePrefix(b, rest);
  }

  /** Round trip: the layout loses nothing, so two different external data never share their bytes. */
  lemma ParseSerialize(e: ExtData)
    requires Encodable(e)
    ensures Parse(Serialize(e)) == Read(e, [])
  {
    hide ToBE;
    hide ToLE;
    hide FromBE;
    hide FromLE;
    hide TakeWord;
    hide TakeU64;
    hide TakeI64;
    hide TakeVec;
    hide EncodeVec;
    hide EncodeI64;
    var s7 := ToBE(e.mint, 32);
    var s6 := ToBE(e.feeRecipient, 32) + s7;
    var s5 := ToLE(e.fee, 8) + s6;
    var s4 := EncodeVec(e.encryptedOutput2) + s5;
    var s3 := EncodeVec(e.encryptedOutput1) + s4;
    var s2 := EncodeI64(e.extAmount) + s3;
    TakesWord(e.recipient, s2);
    TakesI64(e.extAmount, s3);
    TakesVec(e.encryptedOutput1, s4);
    TakesVec(e.encryptedOutput2, s5);
    TakesU64(e.fee, s6);
    TakesWord(e.feeRecipient, s7);
    assert s7 == s7 + [];
    TakesWord(e.mint, []);
  }

  lemma SerializeInjective(a: ExtData, b: ExtData)
    requires Encodable(a) && Encodable(b)
    ensures Serialize(a) == Serialize(b) <==> a == b
  {
    ParseSerialize(a);
    ParseSerialize(b);
  }
}
