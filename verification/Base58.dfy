/** The generic base58 coder that Monero's block coder is built on. A Go string is a sequence of
    bytes, so each `char` here stands for one byte of it. */
module Base58 {
  import opened Numerals

  type byte = x: nat | x < 256

  /** The base58 alphabet: digits and letters without `0`, `I`, `O` and `l`. */
  predicate IsSymbol(c: char) {
    '1' <= c <= '9' || 'A' <= c <= 'H' || 'J' <= c <= 'N' || 'P' <= c <= 'Z' || 'a' <= c <= 'k' || 'm' <= c <= 'z'
  }

  function SymbolDigit(c: char): (d: nat)
    requires IsSymbol(c)
    ensures d < 58
  {
    var n := c as int;
    if c <= '9' then n - 49
    else if c <= 'H' then n - 65 + 9
    else if c <= 'N' then n - 74 + 17
    else if c <= 'Z' then n - 80 + 22
    else if c <= 'k' then n - 97 + 33
    else n - 109 + 44
  }

  function DigitSymbol(d: nat): (c: char)
    requires d < 58
    ensures IsSymbol(c) && SymbolDigit(c) == d
  {
    (if d < 9 then d + 49
     else if d < 17 then d - 9 + 65
     else if d < 22 then d - 17 + 74
     else if d < 33 then d - 22 + 80
     else if d < 44 then d - 33 + 97
     else d - 44 + 109) as char
  }

  lemma SymbolOfDigit(c: char)
    requires IsSymbol(c)
    ensures DigitSymbol(SymbolDigit(c)) == c
  {
  }

  /** The alphabet is pinned down: the ASCII digits and letters without four, in ASCII order. */
  lemma AlphabetIs(c: char, d: char)
    ensures IsSymbol(c) <==> ('0' <= c <= '9' || 'A' <= c <= 'Z' || 'a' <= c <= 'z') && c !in {'0', 'I', 'O', 'l'}
    ensures IsSymbol(c) && IsSymbol(d) && c < d ==> SymbolDigit(c) < SymbolDigit(d)
  {
  }

  predicate AllSymbols(s: string) {
    forall i :: 0 <= i < |s| ==> IsSymbol(s[i])
  }

  function SymbolDigits(s: string): (ds: seq<nat>)
    requires AllSymbols(s)
    ensures |ds| == |s| && DigitsBelow(58, ds)
  {
    seq(|s|, i requires 0 <= i < |s| => SymbolDigit(s[i]))
  }

  function Symbols(ds: seq<nat>): (s: string)
    requires DigitsBelow(58, ds)
    ensures |s| == |ds| && AllSymbols(s) && SymbolDigits(s) == ds
  {
    seq(|ds|, i requires 0 <= i < |ds| => DigitSymbol(ds[i]))
  }

  lemma SymbolsOfDigits(s: string)
    requires AllSymbols(s)
    ensures Symbols(SymbolDigits(s)) == s
  {
    forall i | 0 <= i < |s| ensures Symbols(SymbolDigits(s))[i] == s[i] { SymbolOfDigit(s[i]); }
  }

  /** Each leading zero byte becomes a `1`; the rest is the minimal base-58 numeral. */
  function Encode(bytes: seq<byte>): (s: string)
    ensures AllSymbols(s)
  {
    Symbols(Zeros(LeadingZeros(bytes)) + Minimal(58, Value(256, bytes)))
  }

  /** Each leading `1` becomes a zero byte; a string with a foreign symbol decodes to nothing. */
  function Decode(s: string): (bytes: seq<byte>) {
    if !AllSymbols(s) then []
    else Bytes(Zeros(LeadingZeros(SymbolDigits(s))) + Minimal(256, Value(58, SymbolDigits(s))))
  }

  function Bytes(ds: seq<nat>): (bytes: seq<byte>)
    requires DigitsBelow(256, ds)
    ensures bytes == ds
  {
    seq(|ds|, i requires 0 <= i < |ds| => ds[i])
  }
}

/** A sequence cut into equal chunks, and chunks joined back. */
module Chunks {
  import opened Numerals

  function Join<T>(bs: seq<seq<T>>): (s: seq<T>) {
    if bs == [] then [] else Join(bs[..|bs| - 1]) + bs[|bs| - 1]
  }

  predicate Uniform<T>(bs: seq<seq<T>>, w: nat) {
    forall i :: 0 <= i < |bs| ==> |bs[i]| == w
  }

  function Chunk<T>(s: seq<T>, w: nat, i: nat): (c: seq<T>)
    requires i * w + w <= |s|
    ensures |c| == w
  {
    s[i * w..i * w + w]
  }

  lemma {:induction false} JoinLength<T>(bs: seq<seq<T>>, w: nat)
    requires Uniform(bs, w)
    ensures |Join(bs)| == |bs| * w
  {
    if bs != [] {
      JoinLength(bs[..|bs| - 1], w);
      assert |bs| * w == (|bs| - 1) * w + w;
    }
  }

  lemma Within(i: nat, n: nat, w: nat)
    requires i < n
    ensures i * w + w <= n * w
  {
    MulMono(i + 1, n, w);
  }

  /** A joined chunk is found at its place, whatever follows. */
  lemma {:induction false} JoinChunk<T>(bs: seq<seq<T>>, rest: seq<T>, w: nat, i: nat)
    requires Uniform(bs, w) && i < |bs|
    ensures i * w + w <= |Join(bs) + rest| && Chunk(Join(bs) + rest, w, i) == bs[i]
  {
    var init, last := bs[..|bs| - 1], bs[|bs| - 1];
    JoinLength(bs, w);
    JoinLength(init, w);
    Within(i, |bs|, w);
    assert Join(bs) + rest == Join(init) + (last + rest);
    if i < |bs| - 1 { JoinChunk(init, last + rest, w, i); }
  }

  lemma JoinRest<T>(bs: seq<seq<T>>, rest: seq<T>, w: nat)
    requires Uniform(bs, w)
    ensures |Join(bs)| == |bs| * w && (Join(bs) + rest)[|bs| * w..] == rest
  {
    JoinLength(bs, w);
  }

  lemma Locate(k: nat, w: nat, n: nat) returns (i: nat)
    requires w > 0 && k < n * w
    ensures i < n && i * w <= k < i * w + w
  {
    i := k / w;
    DivBelow(k, w, n);
  }

  /** Sequences with the same chunks and the same rest are equal. */
  lemma SameChunks<T>(a: seq<T>, b: seq<T>, w: nat, n: nat)
    requires w > 0 && |a| == |b| >= n * w
    requires forall k :: n * w <= k < |a| ==> a[k] == b[k]
    requires forall i :: 0 <= i < n ==> SameChunk(a, b, w, i)
    ensures a == b
  {
    forall k | 0 <= k < n * w ensures a[k] == b[k] {
      var i := Locate(k, w, n);
      assert SameChunk(a, b, w, i);
      assert a[k] == a[i * w..i * w + w][k - i * w] && b[k] == b[i * w..i * w + w][k - i * w];
    }
  }

  predicate SameChunk<T(==)>(a: seq<T>, b: seq<T>, w: nat, i: nat) {
    && i * w + w <= |a|
    && i * w + w <= |b|
    && a[i * w..i * w + w] == b[i * w..i * w + w]
  }
}

/** Monero's block-wise base58: eight 8-byte blocks of 11 symbols and one 5-byte block of 7. */
module MoneroBase58 {
  import opened Numerals
  import opened Base58
  import opened Chunks
  import opened Wrappers

  const ADDRESS_BYTES := 69
  const ENCODED_ADDRESS_LEN := 95
  const ENCODED_INTEGRATED_ADDR_LEN := 106

  const FULL_BYTES: nat := 8
  const FULL_SYMBOLS: nat := 11
  const LAST_BYTES: nat := 5
  const LAST_SYMBOLS: nat := 7

  datatype DecodeError = InvalidLength | IntegratedNotSupported | InvalidEncoding

  /** Block sizes for which n symbols always suffice for w bytes and never decode to fewer. */
  predicate BlockShape(w: nat, n: nat) {
    && 1 <= w <= n
    && Pow(256, w) <= Pow(58, n)
    && Pow(256, w - 1) <= Pow(58, n - 1)
  }

  lemma AddressShapes()
    ensures BlockShape(FULL_BYTES, FULL_SYMBOLS) && BlockShape(LAST_BYTES, LAST_SYMBOLS)
  {
    assert Pow(256, 8) <= Pow(58, 11) && Pow(256, 7) <= Pow(58, 10);
    assert Pow(256, 5) <= Pow(58, 7) && Pow(256, 4) <= Pow(58, 6);
  }

  /** If w bytes fit n symbols then w-z bytes fit n-z symbols. */
  lemma {:induction false} CapacityShrinks(w: nat, n: nat, z: nat)
    requires z <= w && z <= n && Pow(256, w) <= Pow(58, n)
    ensures Pow(256, w - z) <= Pow(58, n - z)
    decreases z
  {
    if z > 0 {
      assert 256 * Pow(256, w - 1) <= 58 * Pow(58, n - 1);
      CapacityShrinks(w - 1, n - 1, z - 1);
    }
  }

  /** The reference: the w-byte block's number, written with exactly n base-58 symbols. */
  function BlockNumeral(block: seq<byte>, n: nat): (s: string)
    ensures |s| == n && AllSymbols(s)
  {
    Symbols(Fixed(58, Value(256, block), n))
  }

  function Number(s: string): (v: nat)
    requires AllSymbols(s)
  {
    Value(58, SymbolDigits(s))
  }

  /** The block's number as a w-byte string, dropping what does not fit. */
  function BlockBytes(s: string, w: nat): (block: seq<byte>)
    requires AllSymbols(s)
    ensures |block| == w
  {
    Bytes(Fixed(256, Number(s), w))
  }

  function Pad(s: string, n: nat): (p: string) {
    if |s| < n then seq(n - |s|, _ => '1') + s else s
  }

  lemma PadSymbols(ds: seq<nat>, n: nat)
    requires |ds| <= n && DigitsBelow(58, ds)
    ensures Pad(Symbols(ds), n) == Symbols(Zeros(n - |ds|) + ds)
  {
  }

  /** The generic coder never exceeds the block's width, and zero padding completes the numeral. */
  lemma EncodedDigits(block: seq<byte>, n: nat)
    requires BlockShape(|block|, n)
    ensures var ds := Zeros(LeadingZeros(block)) + Minimal(58, Value(256, block));
            |ds| <= n && Zeros(n - |ds|) + ds == Fixed(58, Value(256, block), n)
  {
    hide Fixed, Value, Minimal, Pow, LeadingZeros;
    var z, v := LeadingZeros(block), Value(256, block);
    assert |Minimal(58, v)| <= n - z by {
      ValueLeadingZeros(256, block);
      ValueBelow(256, block[z..]);
      CapacityShrinks(|block|, n, z);
      MinimalLength(58, v, n - z);
    }
    var m := Minimal(58, v);
    PadMinimal(58, v, n);
    assert Zeros(n - z - |m|) + (Zeros(z) + m) == Zeros(n - |m|) + m;
  }

  /** Whatever the pattern of leading zero bytes, the padded generic encoding of a block is its
      fixed-width numeral. */
  lemma PaddedEncodingIsNumeral(block: seq<byte>, n: nat)
    requires BlockShape(|block|, n)
    ensures |Encode(block)| <= n
    ensures Pad(Encode(block), n) == BlockNumeral(block, n)
  {
    hide Fixed, Value, Minimal, Pow, LeadingZeros, Symbols;
    EncodedDigits(block, n);
    PadSymbols(Zeros(LeadingZeros(block)) + Minimal(58, Value(256, block)), n);
  }

  lemma DecodedLength(ds: seq<nat>, w: nat)
    requires BlockShape(w, |ds|)
    ensures LeadingZeros(ds) + |Minimal(256, Value(58, ds))| >= w
  {
    hide Value, Minimal, Pow, LeadingZeros;
    var z, v := LeadingZeros(ds), Value(58, ds);
    if z < w {
      assert v >= Pow(58, |ds| - z - 1) by {
        ValueLeadingZeros(58, ds);
        ValueAtLeast(58, ds[z..]);
      }
      CapacityShrinks(w - 1, |ds| - 1, z);
      MinimalLength(256, v, w - z - 1);
    }
  }

  /** Decoding n symbols yields at least w bytes, so the slice of the last w is in range, and those
      are the block's number modulo 256^w. */
  lemma DecodedTailIsNumeral(s: string, w: nat)
    requires AllSymbols(s) && BlockShape(w, |s|)
    ensures |Decode(s)| >= w
    ensures Decode(s)[|Decode(s)| - w..] == BlockBytes(s, w)
  {
    hide Fixed, Value, Minimal, Pow, LeadingZeros, SymbolDigits;
    var ds := SymbolDigits(s);
    DecodedLength(ds, w);
    TailMinimal(256, Value(58, ds), LeadingZeros(ds), w);
  }

  lemma BlockRoundTrip(block: seq<byte>, n: nat)
    requires BlockShape(|block|, n)
    ensures BlockBytes(BlockNumeral(block, n), |block|) == block
  {
    hide Fixed, Value, Pow, Symbols, SymbolDigits;
    var v := Value(256, block);
    ValueBelow(256, block);
    ValueFixed(58, v, n);
    assert v % Pow(58, n) == v by { DivModUnique(v, Pow(58, n), 0, v); }
    FixedValue(256, block);
  }

  lemma BytesNumber(s: string, w: nat)
    requires AllSymbols(s)
    ensures Value(256, BlockBytes(s, w)) == Number(s) % Pow(256, w)
  {
    hide Fixed, Value, Pow, SymbolDigits, Number;
    ValueFixed(256, Number(s), w);
  }

  lemma NumeralNumber(block: seq<byte>, n: nat)
    requires BlockShape(|block|, n)
    ensures Number(BlockNumeral(block, n)) == Value(256, block)
  {
    hide Fixed, Value, Pow, Symbols, SymbolDigits;
    var v := Value(256, block);
    ValueBelow(256, block);
    ValueFixed(58, v, n);
    DivModUnique(v, Pow(58, n), 0, v);
  }

  /** Re-encoding a decoded block returns it exactly when its number was below 256^w. */
  lemma BlockReencode(s: string, w: nat)
    requires AllSymbols(s) && BlockShape(w, |s|)
    ensures BlockNumeral(BlockBytes(s, w), |s|) == s <==> Number(s) < Pow(256, w)
  {
    hide Fixed, Value, Pow, Symbols, SymbolDigits, BlockBytes;
    BytesNumber(s, w);
    NumeralNumber(BlockBytes(s, w), |s|);
    if Number(s) < Pow(256, w) {
      DivModUnique(Number(s), Pow(256, w), 0, Number(s));
      FixedValue(58, SymbolDigits(s));
      SymbolsOfDigits(s);
    }
  }

  // The two block sizes of an address, with the arithmetic behind them sealed.

  lemma EncodeFull(block: seq<byte>)
    requires |block| == FULL_BYTES
    ensures Pad(Encode(block), FULL_SYMBOLS) == BlockNumeral(block, FULL_SYMBOLS)
  {
    hide Fixed, Value, Pow, BlockShape, Encode, Decode, Symbols, SymbolDigits, BlockBytes, BlockNumeral;
    AddressShapes();
    PaddedEncodingIsNumeral(block, FULL_SYMBOLS);
  }

  lemma EncodeLast(block: seq<byte>)
    requires |block| == LAST_BYTES
    ensures Pad(Encode(block), LAST_SYMBOLS) == BlockNumeral(block, LAST_SYMBOLS)
  {
    hide Fixed, Value, Pow, BlockShape, Encode, Decode, Symbols, SymbolDigits, BlockBytes, BlockNumeral;
    AddressShapes();
    PaddedEncodingIsNumeral(block, LAST_SYMBOLS);
  }

  /** A decoded block is empty exactly when it holds a foreign symbol. */
  lemma DecodeFull(s: string)
    requires |s| == FULL_SYMBOLS
    ensures if AllSymbols(s) then |Decode(s)| >= FULL_BYTES && Decode(s)[|Decode(s)| - FULL_BYTES..] == BlockBytes(s, FULL_BYTES)
            else Decode(s) == []
  {
    hide Fixed, Value, Pow, BlockShape, SymbolDigits, BlockBytes;
    AddressShapes();
    if AllSymbols(s) { DecodedTailIsNumeral(s, FULL_BYTES); }
  }

  lemma DecodeLast(s: string)
    requires |s| == LAST_SYMBOLS
    ensures if AllSymbols(s) then |Decode(s)| >= LAST_BYTES && Decode(s)[|Decode(s)| - LAST_BYTES..] == BlockBytes(s, LAST_BYTES)
            else Decode(s) == []
  {
    hide Fixed, Value, Pow, BlockShape, SymbolDigits, BlockBytes;
    AddressShapes();
    if AllSymbols(s) { DecodedTailIsNumeral(s, LAST_BYTES); }
  }

  lemma RoundTripFull(block: seq<byte>)
    requires |block| == FULL_BYTES
    ensures BlockBytes(BlockNumeral(block, FULL_SYMBOLS), FULL_BYTES) == block
  {
    hide Fixed, Value, Pow, BlockShape, Encode, Decode, Symbols, SymbolDigits, BlockBytes, BlockNumeral;
    AddressShapes();
    BlockRoundTrip(block, FULL_SYMBOLS);
  }

  lemma RoundTripLast(block: seq<byte>)
    requires |block| == LAST_BYTES
    ensures BlockBytes(BlockNumeral(block, LAST_SYMBOLS), LAST_BYTES) == block
  {
    hide Fixed, Value, Pow, BlockShape, Encode, Decode, Symbols, SymbolDigits, BlockBytes, BlockNumeral;
    AddressShapes();
    BlockRoundTrip(block, LAST_SYMBOLS);
  }

  lemma ReencodeFull(s: string)
    requires |s| == FULL_SYMBOLS && AllSymbols(s)
    ensures BlockNumeral(BlockBytes(s, FULL_BYTES), FULL_SYMBOLS) == s <==> Number(s) < 0x1_0000_0000_0000_0000
  {
    hide Fixed, Value, BlockShape, Symbols, SymbolDigits, BlockBytes, BlockNumeral, Number;
    AddressShapes();
    BlockReencode(s, FULL_BYTES);
    assert Pow(256, 8) == 0x1_0000_0000_0000_0000;
  }

  lemma ReencodeLast(s: string)
    requires |s| == LAST_SYMBOLS && AllSymbols(s)
    ensures BlockNumeral(BlockBytes(s, LAST_BYTES), LAST_SYMBOLS) == s <==> Number(s) < 0x100_0000_0000
  {
    hide Fixed, Value, BlockShape, Symbols, SymbolDigits, BlockBytes, BlockNumeral, Number;
    AddressShapes();
    BlockReencode(s, LAST_BYTES);
    assert Pow(256, 5) == 0x100_0000_0000;
  }

  /** The i-th 8-byte block of an address and the i-th 11-symbol block of its spelling. */
  function FullBytes(addr: seq<byte>, i: nat): (block: seq<byte>)
    requires i * 8 + 8 <= |addr|
    ensures |block| == FULL_BYTES
  {
    addr[i * 8..i * 8 + 8]
  }

  function FullSymbols(s: string, i: nat): (block: string)
    requires i * 11 + 11 <= |s|
    ensures |block| == FULL_SYMBOLS
    ensures AllSymbols(s) ==> AllSymbols(block)
  {
    s[i * 11..i * 11 + 11]
  }

  function NumeralBlocks(addr: seq<byte>, n: nat): (bs: seq<string>)
    requires n * 8 <= |addr|
    ensures |bs| == n && Uniform(bs, 11)
    ensures forall i :: 0 <= i < n ==> bs[i] == BlockNumeral(FullBytes(addr, i), FULL_SYMBOLS)
  {
    seq(n, i requires 0 <= i < n => BlockNumeral(FullBytes(addr, i), FULL_SYMBOLS))
  }

  /** The reference encoding: the numerals of the nine blocks, one after the other. */
  function EncodeAddress(addr: seq<byte>): (s: string)
    requires |addr| == ADDRESS_BYTES
  {
    Join(NumeralBlocks(addr, 8)) + BlockNumeral(addr[64..], LAST_SYMBOLS)
  }

  lemma AddressBlocks(addr: seq<byte>)
    requires |addr| == ADDRESS_BYTES
    ensures var s := EncodeAddress(addr);
            && |s| == ENCODED_ADDRESS_LEN
            && (forall i :: 0 <= i < 8 ==> FullSymbols(s, i) == BlockNumeral(FullBytes(addr, i), FULL_SYMBOLS))
            && s[88..] == BlockNumeral(addr[64..], LAST_SYMBOLS)
  {
    hide Fixed, Value, Minimal, Pow, Symbols, SymbolDigits, BlockBytes, BlockNumeral, Number;
    var bs, rest := NumeralBlocks(addr, 8), BlockNumeral(addr[64..], LAST_SYMBOLS);
    JoinRest(bs, rest, 11);
    forall i | 0 <= i < 8 ensures FullSymbols(EncodeAddress(addr), i) == BlockNumeral(FullBytes(addr, i), FULL_SYMBOLS) {
      JoinChunk(bs, rest, 11, i);
    }
  }

  lemma AddressSymbols(addr: seq<byte>)
    requires |addr| == ADDRESS_BYTES
    ensures |EncodeAddress(addr)| == ENCODED_ADDRESS_LEN && AllSymbols(EncodeAddress(addr))
  {
    hide Fixed, Value, Minimal, Pow, Symbols, SymbolDigits, BlockBytes, BlockNumeral, Number;
    var s := EncodeAddress(addr);
    AddressBlocks(addr);
    forall k | 0 <= k < |s| ensures IsSymbol(s[k]) {
      if k < 88 {
        assert s[k] == FullSymbols(s, k / 11)[k % 11];
      } else {
        assert s[k] == s[88..][k - 88];
      }
    }
  }

  function ByteBlocks(s: string, n: nat): (bs: seq<seq<byte>>)
    requires n * 11 <= |s| && AllSymbols(s)
    ensures |bs| == n && Uniform(bs, 8)
    ensures forall i :: 0 <= i < n ==> bs[i] == BlockBytes(FullSymbols(s, i), FULL_BYTES)
  {
    seq(n, i requires 0 <= i < n => BlockBytes(FullSymbols(s, i), FULL_BYTES))
  }

  function DecodeAddress(s: string): (r: Result<seq<byte>, DecodeError>)
    ensures r.Ok? <==> |s| == ENCODED_ADDRESS_LEN && AllSymbols(s)
  {
    if |s| == ENCODED_INTEGRATED_ADDR_LEN then Err(IntegratedNotSupported)
    else if |s| != ENCODED_ADDRESS_LEN then Err(InvalidLength)
    else if !AllSymbols(s) then Err(InvalidEncoding)
    else Ok(Join(ByteBlocks(s, 8)) + BlockBytes(s[88..], LAST_BYTES))
  }

  /** Which error a rejected string gets. */
  lemma DecodeErrors(s: string)
    ensures DecodeAddress(s) == Err(IntegratedNotSupported) <==> |s| == 106
    ensures DecodeAddress(s) == Err(InvalidLength) <==> |s| != 95 && |s| != 106
    ensures DecodeAddress(s) == Err(InvalidEncoding) <==> |s| == 95 && exists i :: 0 <= i < |s| && !IsSymbol(s[i])
  {
    hide Fixed, Value, Minimal, Pow, BlockBytes;
  }

  lemma DecodedAddressBlocks(s: string)
    requires |s| == ENCODED_ADDRESS_LEN && AllSymbols(s)
    ensures var bytes := DecodeAddress(s).value;
            && |bytes| == ADDRESS_BYTES
            && (forall i :: 0 <= i < 8 ==> FullBytes(bytes, i) == BlockBytes(FullSymbols(s, i), FULL_BYTES))
            && bytes[64..] == BlockBytes(s[88..], LAST_BYTES)
  {
    hide Fixed, Value, Minimal, Pow, Symbols, SymbolDigits, BlockBytes, BlockNumeral, Number;
    var bs, rest := ByteBlocks(s, 8), BlockBytes(s[88..], LAST_BYTES);
    JoinRest(bs, rest, 8);
    forall i | 0 <= i < 8 ensures FullBytes(DecodeAddress(s).value, i) == BlockBytes(FullSymbols(s, i), FULL_BYTES) {
      JoinChunk(bs, rest, 8, i);
    }
  }

  /** `addrBytesToBase58`: the generic coder and padding per block give the reference encoding. */
  method AddrBytesToBase58(addrBytes: seq<byte>) returns (encodedAddr: string)
    requires |addrBytes| == ADDRESS_BYTES
    ensures encodedAddr == EncodeAddress(addrBytes)
  {
    hide Encode, Fixed, Value, Minimal, Pow, Symbols, SymbolDigits, BlockBytes, BlockNumeral, Number;
    encodedAddr := "";
    ghost var bs := NumeralBlocks(addrBytes, 8);
    for i := 0 to 8
      invariant encodedAddr == Join(bs[..i])
    {
      var block := Encode(addrBytes[i * 8..i * 8 + 8]);
      EncodeFull(FullBytes(addrBytes, i));
      if |block| < 11 {
        block := seq(11 - |block|, _ => '1') + block;
      }
      encodedAddr := encodedAddr + block;
      assert bs[..i + 1][..i] == bs[..i];
    }
    assert bs[..8] == bs;
    var lastBlock := Encode(addrBytes[64..]);
    EncodeLast(addrBytes[64..]);
    if |lastBlock| < 7 {
      lastBlock := seq(7 - |lastBlock|, _ => '1') + lastBlock;
    }
    encodedAddr := encodedAddr + lastBlock;
  }

  /** `addrBase58ToBytes`: total on every string; the two slices are always in range. */
  method AddrBase58ToBytes(encodedAddress: string) returns (r: Result<seq<byte>, DecodeError>)
    ensures r == DecodeAddress(encodedAddress)
  {
    hide Decode, Fixed, Value, Minimal, Pow, Symbols, SymbolDigits, BlockBytes, BlockNumeral, Number;
    if |encodedAddress| != ENCODED_ADDRESS_LEN {
      return Err(if |encodedAddress| == ENCODED_INTEGRATED_ADDR_LEN then IntegratedNotSupported else InvalidLength);
    }
    var result: seq<byte> := [];
    ghost var bs: seq<seq<byte>> := [];
    for i := 0 to 8
      invariant |bs| == i && result == Join(bs)
      invariant forall j :: 0 <= j < i ==> DecodesTo(encodedAddress, j, bs[j])
    {
      var block := Decode(encodedAddress[i * 11..i * 11 + 11]);
      DecodeFull(FullSymbols(encodedAddress, i));
      if |block| == 0 {
        assert !AllSymbols(FullSymbols(encodedAddress, i));
        return Err(InvalidEncoding);
      }
      block := block[|block| - 8..];
      result := result + block;
      bs := bs + [block];
    }
    var lastBlock := Decode(encodedAddress[88..]);
    DecodeLast(encodedAddress[88..]);
    if |lastBlock| == 0 {
      assert !AllSymbols(encodedAddress[88..]);
      return Err(InvalidEncoding);
    }
    lastBlock := lastBlock[|lastBlock| - 5..];
    AllBlocksDecoded(encodedAddress, bs);
    return Ok(result + lastBlock);
  }

  ghost predicate DecodesTo(s: string, i: nat, block: seq<byte>)
    requires i * 11 + 11 <= |s|
  {
    AllSymbols(FullSymbols(s, i)) && block == BlockBytes(FullSymbols(s, i), FULL_BYTES)
  }

  lemma AllBlocksDecoded(s: string, bs: seq<seq<byte>>)
    requires |s| == ENCODED_ADDRESS_LEN && |bs| == 8 && AllSymbols(s[88..])
    requires forall j :: 0 <= j < 8 ==> DecodesTo(s, j, bs[j])
    ensures AllSymbols(s) && bs == ByteBlocks(s, 8)
  {
    hide Fixed, Value, Minimal, Pow, Symbols, SymbolDigits, BlockBytes, BlockNumeral, Number;
    forall k | 0 <= k < |s| ensures IsSymbol(s[k]) {
      if k < 88 {
        assert DecodesTo(s, k / 11, bs[k / 11]);
        assert s[k] == FullSymbols(s, k / 11)[k % 11];
      } else {
        assert s[k] == s[88..][k - 88];
      }
    }
    forall j | 0 <= j < 8 ensures bs[j] == ByteBlocks(s, 8)[j] { assert DecodesTo(s, j, bs[j]); }
  }

  /** Every 69-byte address survives encoding and decoding. */
  lemma AddressRoundTrip(addr: seq<byte>)
    requires |addr| == ADDRESS_BYTES
    ensures DecodeAddress(EncodeAddress(addr)) == Ok(addr)
  {
    hide Fixed, Value, Minimal, Pow, Symbols, SymbolDigits, BlockBytes, BlockNumeral, Number;
    var s := EncodeAddress(addr);
    AddressSymbols(addr);
    AddressBlocks(addr);
    DecodedAddressBlocks(s);
    var bytes := DecodeAddress(s).value;
    forall i | 0 <= i < 8 ensures SameChunk(bytes, addr, 8, i) {
      RoundTripFull(FullBytes(addr, i));
      assert FullBytes(bytes, i) == FullBytes(addr, i);
    }
    RoundTripLast(addr[64..]);
    assert forall k :: 64 <= k < 69 ==> bytes[k] == bytes[64..][k - 64] && addr[k] == addr[64..][k - 64];
    SameChunks(bytes, addr, 8, 8);
  }

  /** Every block's number fits the bytes it stands for. */
  predicate Canonical(s: string)
    requires AllSymbols(s) && |s| == ENCODED_ADDRESS_LEN
  {
    && (forall i :: 0 <= i < 8 ==> Number(FullSymbols(s, i)) < 0x1_0000_0000_0000_0000)
    && Number(s[88..]) < 0x100_0000_0000
  }

  /** Decoding then encoding is the identity on exactly the canonical strings: a block whose number
      is 256^w or more is accepted and silently reduced. */
  lemma AddressReencode(s: string)
    requires |s| == ENCODED_ADDRESS_LEN && AllSymbols(s)
    ensures DecodeAddress(s).Ok? && |DecodeAddress(s).value| == ADDRESS_BYTES
    ensures EncodeAddress(DecodeAddress(s).value) == s <==> Canonical(s)
  {
    hide Fixed, Value, Minimal, Pow, Symbols, SymbolDigits, BlockBytes, BlockNumeral, Number;
    DecodedAddressBlocks(s);
    AddressBlocks(DecodeAddress(s).value);
    var e := EncodeAddress(DecodeAddress(s).value);
    forall i | 0 <= i < 8
      ensures FullSymbols(e, i) == FullSymbols(s, i) <==> Number(FullSymbols(s, i)) < 0x1_0000_0000_0000_0000
    {
      ReencodeFull(FullSymbols(s, i));
    }
    ReencodeLast(s[88..]);
    if Canonical(s) {
      forall i | 0 <= i < 8 ensures SameChunk(e, s, 11, i) {
        assert FullSymbols(e, i) == FullSymbols(s, i);
      }
      assert forall k :: 88 <= k < 95 ==> e[k] == e[88..][k - 88] && s[k] == s[88..][k - 88];
      SameChunks(e, s, 11, 8);
    }
  }

  lemma SameBytes(s: string, t: string, w: nat)
    requires AllSymbols(s) && AllSymbols(t) && Number(s) % Pow(256, w) == Number(t) % Pow(256, w)
    ensures BlockBytes(s, w) == BlockBytes(t, w)
  {
    hide Fixed, Value, Pow, SymbolDigits, Number;
    BytesNumber(s, w);
    BytesNumber(t, w);
    FixedValue(256, BlockBytes(s, w));
    FixedValue(256, BlockBytes(t, w));
  }

  lemma NumberOfFixed(v: nat, n: nat)
    requires v < Pow(58, n)
    ensures Number(Symbols(Fixed(58, v, n))) == v
  {
    hide Fixed, Value, Pow, SymbolDigits, Symbols;
    ValueFixed(58, v, n);
    DivModUnique(v, Pow(58, n), 0, v);
  }

  /** So decoding is not injective: any number that leaves room for 256^w more has a second spelling. */
  lemma TwoSpellings(v: nat, w: nat, n: nat)
    requires v + Pow(256, w) < Pow(58, n)
    ensures var s, t := Symbols(Fixed(58, v, n)), Symbols(Fixed(58, v + Pow(256, w), n));
            s != t && BlockBytes(s, w) == BlockBytes(t, w)
  {
    hide Fixed, Value, Pow, Symbols, SymbolDigits, BlockBytes, Number;
    var p := Pow(256, w);
    NumberOfFixed(v, n);
    NumberOfFixed(v + p, n);
    DivModUnique(v + p, p, v / p + 1, v % p);
    SameBytes(Symbols(Fixed(58, v, n)), Symbols(Fixed(58, v + p, n)), w);
  }
}
