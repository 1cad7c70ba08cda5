/** The `updateQuote` word: four 56-bit prices and a 16-bit pair id in two limbs and 32 big-endian bytes. */
module Pack {
  import opened Words
  import opened Errors
  import opened Arithmetic
  import opened CurveSpec

  const POW16: nat := 0x1_0000
  const POW40: nat := 0x100_0000_0000
  const POW56: nat := 0x100_0000_0000_0000
  const POW96: nat := 0x1_0000_0000_0000_0000_0000_0000
  const POW112: nat := 0x1_0000_0000_0000_0000_0000_0000_0000

  type byte = x: int | 0 <= x < 256

  datatype QuoteWord = QuoteWord(pairId: u16, ladder: Ladder)

  predicate Packable(l: Ladder) {
    l.minBid <= PRICE_MAX && l.maxBid <= PRICE_MAX && l.minAsk <= PRICE_MAX && l.maxAsk <= PRICE_MAX
  }

  // ---- Limbs: minAsk keeps its low 16 bits in the low limb and its high 40 in the high one ----

  function LowLimb(l: Ladder): u128
    requires Packable(l)
  {
    l.minBid + l.maxBid * POW56 + (l.minAsk % POW16) * POW112
  }

  function HighLimb(w: QuoteWord): u128
    requires Packable(w.ladder)
  {
    w.ladder.minAsk / POW16 + w.ladder.maxAsk * POW40 + w.pairId * POW96
  }

  function PackLimbs(w: QuoteWord): Result<(u128, u128), PackError> {
    if !Packable(w.ladder) then Err(PackPriceOutOfRange)
    else Ok((LowLimb(w.ladder), HighLimb(w)))
  }

  function UnpackLimbs(lo: u128, hi: u128): Result<QuoteWord, PackError> {
    if hi / POW112 != 0 then Err(NonCanonical)
    else
      var minAsk := (lo / POW112) % POW16 + (hi % POW40) * POW16;
      Ok(QuoteWord(
        (hi / POW96) % POW16,
        Ladder(lo % POW56, (lo / POW56) % POW56, minAsk, (hi / POW40) % POW56)))
  }

  /** Unpacking what was packed gives the row back, for exactly the rows in range. */
  lemma LimbsRoundTrip(w: QuoteWord)
    ensures PackLimbs(w).Ok? <==> Packable(w.ladder)
    ensures PackLimbs(w).Ok? ==> UnpackLimbs(PackLimbs(w).value.0, PackLimbs(w).value.1) == Ok(w)
  {
    if Packable(w.ladder) {
      LowFields(w.ladder.minBid, w.ladder.maxBid, w.ladder.minAsk % POW16);
      HighFields(w.ladder.minAsk / POW16, w.ladder.maxAsk, w.pairId);
    }
  }

  lemma LowFields(a: nat, b: nat, c: nat)
    requires a < POW56 && b < POW56 && c < POW16
    ensures var lo := a + b * POW56 + c * POW112;
            lo % POW56 == a && (lo / POW56) % POW56 == b && (lo / POW112) % POW16 == c
  {
    var lo := a + b * POW56 + c * POW112;
    DivModUnique(lo, POW56, b + c * POW56, a);
    DivModUnique(b + c * POW56, POW56, c, b);
    DivModUnique(lo, POW112, c, a + b * POW56);
    DivModUnique(c, POW16, 0, c);
  }

  lemma HighFields(a: nat, b: nat, c: nat)
    requires a < POW40 && b < POW56 && c < POW16
    ensures var hi := a + b * POW40 + c * POW96;
            hi % POW40 == a && (hi / POW40) % POW56 == b && (hi / POW96) % POW16 == c && hi / POW112 == 0
  {
    var hi := a + b * POW40 + c * POW96;
    DivModUnique(hi, POW40, b + c * POW56, a);
    DivModUnique(b + c * POW56, POW56, c, b);
    DivModUnique(hi, POW96, c, a + b * POW40);
    DivModUnique(c, POW16, 0, c);
    DivModUnique(hi, POW112, 0, hi);
  }

  /** Packing what was unpacked gives the limbs back, for exactly the words with the top bits clear. */
  lemma WordRoundTrip(lo: u128, hi: u128)
    ensures UnpackLimbs(lo, hi).Ok? <==> hi < POW112
    ensures UnpackLimbs(lo, hi).Ok? ==> PackLimbs(UnpackLimbs(lo, hi).value) == Ok((lo, hi))
  {
    FloorGalois(hi, POW112, 1);
    FloorBounds(hi, POW112);
    if hi < POW112 {
      hide PackLimbs;
      LowDigits(lo);
      HighDigits(hi);
      var w := UnpackLimbs(lo, hi).value;
      JoinAsk((lo / POW112) % POW16, hi % POW40);
      LimbsFromFields(w, (lo / POW112) % POW16, hi % POW40);
    }
  }

  lemma LimbsFromFields(w: QuoteWord, askLow: nat, askHigh: nat)
    requires Packable(w.ladder) && w.ladder.minAsk % POW16 == askLow && w.ladder.minAsk / POW16 == askHigh
    ensures PackLimbs(w) == Ok((w.ladder.minBid + w.ladder.maxBid * POW56 + askLow * POW112,
                                askHigh + w.ladder.maxAsk * POW40 + w.pairId * POW96))
  {}

  lemma JoinAsk(low: nat, high: nat)
    requires low < POW16 && high < POW40
    ensures low + high * POW16 <= PRICE_MAX
    ensures (low + high * POW16) % POW16 == low && (low + high * POW16) / POW16 == high
  {
    DivModUnique(low + high * POW16, POW16, high, low);
  }

  lemma LowDigits(lo: u128)
    ensures lo == lo % POW56 + ((lo / POW56) % POW56) * POW56 + ((lo / POW112) % POW16) * POW112
  {
    DivMod(lo, POW56);
    var q := lo / POW56;
    DivMod(q, POW56);
    DivModUnique(lo, POW112, q / POW56, lo % POW56 + (q % POW56) * POW56);
    FloorBounds(lo, POW112);
    DivModUnique(lo / POW112, POW16, 0, lo / POW112);
  }

  lemma HighDigits(hi: u128)
    requires hi < POW112
    ensures hi == hi % POW40 + ((hi / POW40) % POW56) * POW40 + ((hi / POW96) % POW16) * POW96
  {
    DivMod(hi, POW40);
    var q := hi / POW40;
    DivMod(q, POW56);
    DivModUnique(hi, POW96, q / POW56, hi % POW40 + (q % POW56) * POW40);
    FloorBounds(hi, POW96);
    DivModUnique(hi / POW96, POW16, 0, hi / POW96);
  }

  // ---- Bytes ----

  function Pow256(n: nat): (p: nat)
    ensures p >= 1
  {
    if n == 0 then 1 else 256 * Pow256(n - 1)
  }

  /** Big-endian bytes of the low `n` bytes of `x`. */
  function ToBytes(x: nat, n: nat): (s: seq<byte>)
    ensures |s| == n
  {
    if n == 0 then [] else ToBytes(x / 256, n - 1) + [x % 256]
  }

  function FromBytes(s: seq<byte>): nat {
    if s == [] then 0 else 256 * FromBytes(s[..|s| - 1]) + s[|s| - 1]
  }

  lemma {:induction false} BytesRoundTrip(x: nat, n: nat)
    requires x < Pow256(n)
    ensures FromBytes(ToBytes(x, n)) == x
  {
    if n > 0 {
      BytesRoundTrip(x / 256, n - 1);
      assert ToBytes(x, n)[..n - 1] == ToBytes(x / 256, n - 1);
    }
  }

  lemma {:induction false} BytesBound(s: seq<byte>)
    ensures FromBytes(s) < Pow256(|s|)
  {
    if s != [] { BytesBound(s[..|s| - 1]); }
  }

  lemma {:induction false} ValueRoundTrip(s: seq<byte>)
    ensures ToBytes(FromBytes(s), |s|) == s
  {
    if s != [] { ValueRoundTrip(s[..|s| - 1]); }
  }

  lemma {:induction false} Pow256Word(n: nat)
    requires n == 16
    ensures Pow256(n) == POW128
  {
    var k4, k8, k12 := 4, 8, 12;
    assert Pow256(k4) == 0x1_0000_0000;
    assert Pow256(k8) == POW64 by { assert Pow256(5) == 256 * Pow256(k4); }
    assert Pow256(k12) == POW96 by { assert Pow256(9) == 256 * Pow256(k8); }
    assert Pow256(13) == 256 * Pow256(k12);
  }

  /** The 32-byte word: high limb first. */
  function PackBytes(w: QuoteWord): Result<seq<byte>, PackError> {
    var limbs :- PackLimbs(w);
    Ok(ToBytes(limbs.1, 16) + ToBytes(limbs.0, 16))
  }

  function UnpackBytes(word: seq<byte>): Result<QuoteWord, PackError>
    requires |word| == 32
  {
    BytesBound(word[..16]);
    BytesBound(word[16..]);
    Pow256Word(16);
    UnpackLimbs(FromBytes(word[16..]), FromBytes(word[..16]))
  }

  lemma PackUnpack(w: QuoteWord)
    requires Packable(w.ladder)
    ensures PackBytes(w).Ok? && |PackBytes(w).value| == 32 && UnpackBytes(PackBytes(w).value) == Ok(w)
  {
    LimbsRoundTrip(w);
    Pow256Word(16);
    var (lo, hi) := PackLimbs(w).value;
    BytesRoundTrip(lo, 16);
    BytesRoundTrip(hi, 16);
    var word := PackBytes(w).value;
    assert word[..16] == ToBytes(hi, 16) && word[16..] == ToBytes(lo, 16);
  }

  lemma UnpackPack(word: seq<byte>)
    requires |word| == 32
    ensures UnpackBytes(word).Ok? <==> word[0] == 0 && word[1] == 0
    ensures UnpackBytes(word).Ok? ==> PackBytes(UnpackBytes(word).value) == Ok(word)
  {
    Pow256Word(16);
    BytesBound(word[..16]);
    BytesBound(word[16..]);
    var lo, hi := FromBytes(word[16..]), FromBytes(word[..16]);
    WordRoundTrip(lo, hi);
    ValueRoundTrip(word[..16]);
    ValueRoundTrip(word[16..]);
    assert word[..16] + word[16..] == word;
    TopBytesClear(word[..16]);
  }

  /** The published layout: the word, read big-endian, is the four prices at bits 0, 56, 112 and 168 and the pair at 224. */
  lemma PackedLayout(w: QuoteWord)
    ensures PackBytes(w).Err? <==> !Packable(w.ladder)
    ensures PackBytes(w).Err? ==> PackBytes(w).error == PackPriceOutOfRange
    ensures PackBytes(w).Ok? ==>
            FromBytes(PackBytes(w).value)
            == w.ladder.minBid + w.ladder.maxBid * POW56 + w.ladder.minAsk * POW112
               + w.ladder.maxAsk * (POW112 * POW56) + w.pairId * (POW112 * POW112)
  {
    if Packable(w.ladder) {
      hide ToBytes, FromBytes, Pow256;
      Pow256Word(16);
      var lo, hi, word := LowLimb(w.ladder), HighLimb(w), PackBytes(w).value;
      BytesRoundTrip(lo, 16);
      BytesRoundTrip(hi, 16);
      SplitValue(word, 16);
      assert word[..16] == ToBytes(hi, 16) && word[16..] == ToBytes(lo, 16);
      DivMod(w.ladder.minAsk, POW16);
    }
  }

  /** A 16-byte limb is below 2^112 exactly when its first two bytes are zero. */
  lemma TopBytesClear(s: seq<byte>)
    requires |s| == 16
    ensures FromBytes(s) < POW112 <==> s[0] == 0 && s[1] == 0
  {
    hide FromBytes, Pow256;
    var top, rest := FromBytes(s[..2]), FromBytes(s[2..]);
    SplitValue(s, 2);
    BytesBound(s[2..]);
    Pow256Top(14);
    TwoBytesClear(s[..2]);
    DivModUnique(FromBytes(s), POW112, top, rest);
    FloorGalois(FromBytes(s), POW112, 1);
  }

  lemma Pow256Top(n: nat)
    requires n == 14
    ensures Pow256(n) == POW112
  {
    Pow256Word(16);
    assert Pow256(15) == 256 * Pow256(n);
  }

  lemma TwoBytesClear(s: seq<byte>)
    requires |s| == 2
    ensures FromBytes(s) == 0 <==> s[0] == 0 && s[1] == 0
  {
    assert s[..1] == [s[0]] && [s[0]][..0] == [];
    assert FromBytes([s[0]]) == s[0];
  }

  lemma {:induction false} SplitValue(s: seq<byte>, k: nat)
    requires k <= |s|
    ensures FromBytes(s) == FromBytes(s[..k]) * Pow256(|s| - k) + FromBytes(s[k..])
  {
    if k == |s| {
      assert s[..k] == s;
    } else {
      var init, last, n := s[..|s| - 1], s[|s| - 1], |s| - k;
      SplitValue(init, k);
      assert init[..k] == s[..k];
      assert s[k..][..n - 1] == init[k..] && s[k..][n - 1] == last;
      AppendDigit(FromBytes(s[..k]), Pow256(n - 1), FromBytes(init[k..]), last);
    }
  }

  lemma AppendDigit(a: nat, p: nat, b: nat, last: nat)
    ensures 256 * (a * p + b) + last == a * (256 * p) + (256 * b + last)
  {}

  // ---- The buffers as written ----

  /** Range-check every price, then lay the two limbs into a fresh buffer. */
  method Pack(w: QuoteWord) returns (r: Result<array<byte>, PackError>)
    ensures r.Ok? ==> fresh(r.value)
    ensures (match r case Ok(out) => Ok(out[..]) case Err(e) => Err(e)) == PackBytes(w)
  {
    var prices := [w.ladder.minBid, w.ladder.maxBid, w.ladder.minAsk, w.ladder.maxAsk];
    for i := 0 to |prices|
      invariant forall j :: 0 <= j < i ==> prices[j] <= PRICE_MAX
    {
      if prices[i] > PRICE_MAX { return Err(PackPriceOutOfRange); }
    }
    assert prices[0] <= PRICE_MAX && prices[1] <= PRICE_MAX && prices[2] <= PRICE_MAX && prices[3] <= PRICE_MAX;
    var out := new byte[32](_ => 0);
    var hi, lo := ToBytes(HighLimb(w), 16), ToBytes(LowLimb(w.ladder), 16);
    forall i | 0 <= i < 16 { out[i] := hi[i]; }
    forall i | 0 <= i < 16 { out[16 + i] := lo[i]; }
    assert out[..] == hi + lo;
    return Ok(out);
  }

  method Unpack(word: array<byte>) returns (r: Result<QuoteWord, PackError>)
    requires word.Length == 32
    ensures r == UnpackBytes(word[..])
  {
    var hiBytes, loBytes := word[..16], word[16..];
    assert word[..][..16] == hiBytes && word[..][16..] == loBytes;
    BytesBound(hiBytes);
    BytesBound(loBytes);
    Pow256Word(16);
    return UnpackLimbs(FromBytes(loBytes), FromBytes(hiBytes));
  }
}
