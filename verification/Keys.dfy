/** ed25519 scalars as little-endian byte strings. */
module Scalars {
  import opened Numerals
  import opened Base58
  import opened Wrappers

  /** The order of the ed25519 base point (section 5.1 of RFC 8032). */
  const L: nat := 0x1000_0000_0000_0000_0000_0000_0000_0000_14de_f9de_a2f7_9cd6_5812_631a_5cf5_d3ed
  const KEY_SIZE: nat := 32

  type Scalar = k: nat | k < L
  type Bytes32 = b: seq<byte> | |b| == KEY_SIZE witness seq(KEY_SIZE, _ => 0)

  function Reversed(s: seq<nat>): (r: seq<nat>)
    ensures |r| == |s|
    ensures forall i :: 0 <= i < |s| ==> r[i] == s[|s| - 1 - i]
  {
    seq(|s|, i requires 0 <= i < |s| => s[|s| - 1 - i])
  }

  lemma ReversedTwice(s: seq<nat>)
    ensures Reversed(Reversed(s)) == s
  {
  }

  /** `common.Reverse` fills a new slice of the same length. */
  method Reverse(s: seq<byte>) returns (rs: array<byte>)
    ensures fresh(rs)
    ensures rs[..] == Reversed(s)
  {
    var l := |s|;
    rs := new byte[l];
    for i := 0 to l
      invariant forall k :: 0 <= k < i ==> rs[k] == s[l - k - 1]
    {
      rs[i] := s[l - i - 1];
    }
  }

  function LittleEndian(s: seq<byte>): (v: nat) {
    Value(256, Reversed(s))
  }

  /** The canonical encoding of a number below 256^32. */
  function ScalarBytes(k: nat): (b: Bytes32) {
    Bytes(Reversed(Fixed(256, k, KEY_SIZE)))
  }

  lemma ScalarFits()
    ensures L < Pow(256, KEY_SIZE)
  {
    assert Pow(256, 8) == 0x1_0000_0000_0000_0000;
    PowAdd(256, 8, 8);
    PowAdd(256, 16, 16);
  }

  /** Encoding loses nothing below 256^32, and every 32-byte string is the encoding of its number. */
  lemma ScalarBytesNumber(k: nat)
    requires k < Pow(256, KEY_SIZE)
    ensures LittleEndian(ScalarBytes(k)) == k
  {
    hide Fixed, Value, Pow;
    ReversedTwice(Fixed(256, k, KEY_SIZE));
    ValueFixed(256, k, KEY_SIZE);
    DivModUnique(k, Pow(256, KEY_SIZE), 0, k);
  }

  lemma NumberScalarBytes(b: Bytes32)
    ensures LittleEndian(b) < Pow(256, KEY_SIZE) && ScalarBytes(LittleEndian(b)) == b
  {
    hide Fixed, Value, Pow;
    ValueBelow(256, Reversed(b));
    FixedValue(256, Reversed(b));
    ReversedTwice(b);
  }

  /** `SetCanonicalBytes` accepts 32 bytes holding a number below the order, and nothing else. */
  function SetCanonicalBytes(b: seq<byte>): (k: Option<Scalar>) {
    if |b| == KEY_SIZE && LittleEndian(b) < L then Some(LittleEndian(b)) else None
  }

  lemma CanonicalRoundTrip(k: Scalar)
    ensures SetCanonicalBytes(ScalarBytes(k)) == Some(k)
  {
    ScalarFits();
    ScalarBytesNumber(k);
  }

  /** `scReduce32`: `big.Int` drops the leading zero bytes of the reduced number, and copying into a
      zeroed 32-byte array puts them back. */
  function ScReduce32(s: Bytes32): (r: seq<byte>) {
    var scalar := Value(256, Reversed(s));
    var reduced := Reversed(Minimal(256, scalar % L));
    var n := if |reduced| < KEY_SIZE then |reduced| else KEY_SIZE;
    Bytes(reduced[..n] + Zeros(KEY_SIZE - n))
  }

  /** The result is the one canonical encoding of the input modulo the order. */
  lemma ScReduce32IsMod(s: Bytes32)
    ensures ScReduce32(s) == ScalarBytes(LittleEndian(s) % L)
    ensures SetCanonicalBytes(ScReduce32(s)) == Some(LittleEndian(s) % L)
    ensures forall t: Bytes32 :: LittleEndian(t) == LittleEndian(s) % L ==> t == ScReduce32(s)
  {
    hide Fixed, Value, Pow, Minimal;
    var v := LittleEndian(s) % L;
    var m := Minimal(256, v);
    ScalarFits();
    MinimalLength(256, v, KEY_SIZE);
    PadMinimal(256, v, KEY_SIZE);
    assert Reversed(m) + Zeros(KEY_SIZE - |m|) == Reversed(Zeros(KEY_SIZE - |m|) + m);
    CanonicalRoundTrip(v);
    forall t: Bytes32 | LittleEndian(t) == v ensures t == ScalarBytes(v) { NumberScalarBytes(t); }
  }

  lemma ScReduce32Idempotent(s: Bytes32)
    ensures |ScReduce32(s)| == KEY_SIZE && ScReduce32(ScReduce32(s)) == ScReduce32(s)
    ensures ScReduce32(s) == s <==> SetCanonicalBytes(s).Some?
  {
    ScReduce32IsMod(s);
    var v := LittleEndian(s) % L;
    CanonicalRoundTrip(v);
    ScReduce32IsMod(ScalarBytes(v));
    DivModUnique(v, L, 0, v);
    if SetCanonicalBytes(s).Some? {
      DivModUnique(LittleEndian(s), L, 0, LittleEndian(s));
      NumberScalarBytes(s);
    }
  }

  /** `View`: hashing the spend key and reducing always yields a canonical scalar, so it never errors. */
  function View(keccak: seq<byte> -> Bytes32, sk: Scalar): (vk: Option<Scalar>)
    ensures vk == Some(LittleEndian(keccak(ScalarBytes(sk))) % L)
  {
    ScReduce32IsMod(keccak(ScalarBytes(sk)));
    SetCanonicalBytes(ScReduce32(keccak(ScalarBytes(sk))))
  }

  datatype LogError = InvalidEvent | NotEnoughTopics | ZeroSecret | NotCanonical
  datatype EventKind = Claimed | Refunded | OtherEvent

  /** `GetSecretFromLog`: the contract logs the secret big-endian, in the third topic. */
  function GetSecretFromLog(topics: seq<Bytes32>, event: EventKind): (r: Result<Scalar, LogError>) {
    if event == OtherEvent then Err(InvalidEvent)
    else if |topics| < 3 then Err(NotEnoughTopics)
    else if topics[2] == Zeros(KEY_SIZE) then Err(ZeroSecret)
    else
      match SetCanonicalBytes(Reversed(topics[2]))
      case Some(k) => Ok(k)
      case None => Err(NotCanonical)
  }

  /** What is submitted on chain for a secret: its canonical bytes, reversed. */
  function OnChainSecret(k: Scalar): (b: Bytes32) {
    Bytes(Reversed(ScalarBytes(k)))
  }

  /** A log yields a secret exactly when its third topic is the on-chain form of that non-zero secret. */
  lemma SecretFromLog(topics: seq<Bytes32>, event: EventKind, k: Scalar)
    ensures GetSecretFromLog(topics, event) == Ok(k)
       <==> event != OtherEvent && |topics| >= 3 && k != 0 && topics[2] == OnChainSecret(k)
  {
    hide Fixed, Value, Pow, LittleEndian, ScalarBytes;
    if |topics| >= 3 {
      var t: Bytes32 := topics[2];
      ReversedTwice(t);
      CanonicalRoundTrip(k);
      ReversedTwice(ScalarBytes(k));
      NumberScalarBytes(Bytes(Reversed(t)));
      ZeroBytes(k);
      if t == Zeros(KEY_SIZE) {
        assert Reversed(t) == Zeros(KEY_SIZE);
        ZeroBytes(0);
      }
    }
  }

  /** On chain a secret is the 32-byte big-endian number, and in a key the 32-byte little-endian one. */
  lemma SecretEndianness(k: Scalar)
    ensures Value(256, OnChainSecret(k)) == k && Value(256, Reversed(ScalarBytes(k))) == k
  {
    hide Fixed, Value, Pow, ScalarBytes;
    ScalarFits();
    ScalarBytesNumber(k);
  }

  lemma ZeroBytes(k: Scalar)
    ensures ScalarBytes(k) == Zeros(KEY_SIZE) <==> k == 0
    ensures OnChainSecret(k) == Zeros(KEY_SIZE) <==> k == 0
  {
    hide Fixed, Value, Pow;
    CanonicalRoundTrip(k);
    ValueZeros(256, KEY_SIZE);
    assert Reversed(Zeros(KEY_SIZE)) == Zeros(KEY_SIZE);
    FixedValue(256, Zeros(KEY_SIZE));
    ReversedTwice(ScalarBytes(k));
  }
}

/** Additive key sharing over any commutative group whose base point has order L. */
module KeyShares {
  import opened Numerals
  import opened Base58
  import opened Scalars

  datatype Group<!P> = Group(zero: P, add: (P, P) -> P, base: P, bytes: P -> Bytes32)

  function Times<P>(g: Group<P>, n: nat): (p: P) {
    if n == 0 then g.zero else g.add(g.base, Times(g, n - 1))
  }

  ghost predicate IsCommutativeMonoid<P(!new)>(g: Group<P>) {
    && (forall x, y :: g.add(x, y) == g.add(y, x))
    && (forall x, y, z :: g.add(g.add(x, y), z) == g.add(x, g.add(y, z)))
    && (forall x :: g.add(g.zero, x) == x)
  }

  /** The laws of addition hold and the base point has order exactly L. */
  ghost predicate IsKeyGroup<P(!new)>(g: Group<P>) {
    && IsCommutativeMonoid(g)
    && Times(g, L) == g.zero
    && (forall n: nat :: 0 < n < L ==> Times(g, n) != g.zero)
  }

  /** Different points have different encodings. */
  ghost predicate EncodesInjectively<P(!new)>(g: Group<P>) {
    forall x, y :: g.bytes(x) == g.bytes(y) ==> x == y
  }

  datatype PublicKeyPair<P> = PublicKeyPair(sk: P, vk: P)
  datatype PrivateKeyPair = PrivateKeyPair(sk: Scalar, vk: Scalar)

  function Public<P>(g: Group<P>, k: Scalar): (p: P) {
    Times(g, k)
  }

  function PublicPair<P>(g: Group<P>, kp: PrivateKeyPair): (pub: PublicKeyPair<P>) {
    PublicKeyPair(Public(g, kp.sk), Public(g, kp.vk))
  }

  function SumPublicKeys<P>(g: Group<P>, a: P, b: P): (p: P) {
    g.add(a, b)
  }

  function SumSpendAndViewKeys<P>(g: Group<P>, a: PublicKeyPair<P>, b: PublicKeyPair<P>): (p: PublicKeyPair<P>) {
    PublicKeyPair(SumPublicKeys(g, a.sk, b.sk), SumPublicKeys(g, a.vk, b.vk))
  }

  function SumScalars(a: Scalar, b: Scalar): (k: Scalar) {
    (a + b) % L
  }

  function GetClaimKeypair(skA: Scalar, skB: Scalar, vkA: Scalar, vkB: Scalar): (kp: PrivateKeyPair) {
    PrivateKeyPair(SumScalars(skA, skB), SumScalars(vkA, vkB))
  }

  lemma MonoidLaws<P(!new)>(g: Group<P>, x: P, y: P, z: P)
    requires IsCommutativeMonoid(g)
    ensures g.add(g.add(x, y), z) == g.add(x, g.add(y, z))
    ensures g.add(g.zero, z) == z
  {
  }

  lemma {:induction false} TimesAdd<P(!new)>(g: Group<P>, m: nat, n: nat)
    requires IsCommutativeMonoid(g)
    ensures Times(g, m + n) == g.add(Times(g, m), Times(g, n))
  {
    hide IsCommutativeMonoid;
    if m == 0 {
      MonoidLaws(g, g.zero, g.zero, Times(g, n));
    } else {
      TimesAdd(g, m - 1, n);
      MonoidLaws(g, g.base, Times(g, m - 1), Times(g, n));
    }
  }

  /** Two scalars have the same public key only if they are equal. */
  lemma PublicInjective<P(!new)>(g: Group<P>, a: Scalar, b: Scalar)
    requires IsKeyGroup(g) && Public(g, a) == Public(g, b)
    ensures a == b
  {
    hide Times;
    if a < b {
      SmallerDiffers(g, a, b);
    } else if b < a {
      SmallerDiffers(g, b, a);
    }
  }

  lemma SmallerDiffers<P(!new)>(g: Group<P>, a: Scalar, b: Scalar)
    requires IsKeyGroup(g) && a < b
    ensures Public(g, a) != Public(g, b)
  {
    hide Times, IsCommutativeMonoid;
    TimesAdd(g, b, L - b);
    TimesAdd(g, a, L - b);
    assert Times(g, a + (L - b)) != g.zero;
  }

  lemma SharesAddUp<P(!new)>(g: Group<P>, a: Scalar, b: Scalar)
    requires IsKeyGroup(g)
    ensures Public(g, SumScalars(a, b)) == SumPublicKeys(g, Public(g, a), Public(g, b))
  {
    hide Times;
    TimesAdd(g, a, b);
    if a + b < L {
      DivModUnique(a + b, L, 0, a + b);
    } else {
      DivModUnique(a + b, L, 1, a + b - L);
      TimesAdd(g, L, a + b - L);
    }
  }

  /** The sum of two public keys is the public key of exactly one scalar: the sum of the private ones. */
  lemma SharesAdd<P(!new)>(g: Group<P>, a: Scalar, b: Scalar, k: Scalar)
    requires IsKeyGroup(g)
    ensures Public(g, k) == SumPublicKeys(g, Public(g, a), Public(g, b)) <==> k == SumScalars(a, b)
  {
    hide Times, IsKeyGroup, SumScalars;
    SharesAddUp(g, a, b);
    if Public(g, k) == Public(g, SumScalars(a, b)) { PublicInjective(g, k, SumScalars(a, b)); }
  }

  /** The claim key pair, and no other, has the summed public keys of the two parties. */
  lemma ClaimKeypairControls<P(!new)>(g: Group<P>, a: PrivateKeyPair, b: PrivateKeyPair, kp: PrivateKeyPair)
    requires IsKeyGroup(g)
    ensures PublicPair(g, kp) == SumSpendAndViewKeys(g, PublicPair(g, a), PublicPair(g, b))
       <==> kp == GetClaimKeypair(a.sk, b.sk, a.vk, b.vk)
  {
    SharesAdd(g, a.sk, b.sk, kp.sk);
    SharesAdd(g, a.vk, b.vk, kp.vk);
  }

  /** Spend keys are added to spend keys and view keys to view keys. */
  lemma ClaimKeypairSums(a: PrivateKeyPair, b: PrivateKeyPair)
    ensures var kp := GetClaimKeypair(a.sk, b.sk, a.vk, b.vk); kp.sk == SumScalars(a.sk, b.sk) && kp.vk == SumScalars(a.vk, b.vk)
  {
    hide SumScalars;
  }

  /** The counterparty's secret, published on chain by claiming or refunding, completes the key pair:
      with the secret read back from the log, the sum controls the shared address and nothing else does. */
  lemma RevealedSecretUnlocks<P(!new)>(g: Group<P>, a: PrivateKeyPair, b: PrivateKeyPair, topics: seq<Bytes32>, event: EventKind)
    requires IsKeyGroup(g) && b.sk != 0
    requires |topics| >= 3 && topics[2] == OnChainSecret(b.sk) && event != OtherEvent
    ensures GetSecretFromLog(topics, event).Ok?
    ensures PublicPair(g, GetClaimKeypair(a.sk, GetSecretFromLog(topics, event).value, a.vk, b.vk))
         == SumSpendAndViewKeys(g, PublicPair(g, a), PublicPair(g, b))
  {
    SecretFromLog(topics, event, b.sk);
    ClaimKeypairControls(g, a, b, GetClaimKeypair(a.sk, b.sk, a.vk, b.vk));
  }

  /** Such groups exist: the scalars themselves, under addition modulo L. */
  function ScalarGroup(): (g: Group<Scalar>) {
    Group(0, SumScalars, 1, (k: Scalar) => ScalarBytes(k))
  }

  lemma SumCases(a: Scalar, b: Scalar)
    ensures SumScalars(a, b) == if a + b < L then a + b else a + b - L
  {
    if a + b < L { DivModUnique(a + b, L, 0, a + b); } else { DivModUnique(a + b, L, 1, a + b - L); }
  }

  lemma {:induction false} ScalarTimes(n: nat)
    requires n <= L
    ensures Times(ScalarGroup(), n) == if n == L then 0 else n
  {
    hide SumScalars;
    if n > 0 {
      ScalarTimes(n - 1);
      SumCases(1, n - 1);
    }
  }

  lemma ScalarGroupIsKeyGroup()
    ensures IsKeyGroup(ScalarGroup()) && EncodesInjectively(ScalarGroup())
  {
    hide Times, SumScalars, ScalarBytes, SetCanonicalBytes;
    var g := ScalarGroup();
    forall x: Scalar, y: Scalar | g.bytes(x) == g.bytes(y) ensures x == y {
      CanonicalRoundTrip(x);
      CanonicalRoundTrip(y);
    }
    forall x: Scalar, y: Scalar ensures g.add(x, y) == g.add(y, x) { SumCases(x, y); SumCases(y, x); }
    forall x: Scalar ensures g.add(g.zero, x) == x { SumCases(0, x); }
    forall x: Scalar, y: Scalar, z: Scalar ensures g.add(g.add(x, y), z) == g.add(x, g.add(y, z)) {
      SumCases(x, y);
      SumCases(y, z);
      SumCases(SumScalars(x, y), z);
      SumCases(x, SumScalars(y, z));
    }
    ScalarTimes(L);
    forall n: nat | 0 < n < L ensures Times(g, n) != g.zero { ScalarTimes(n); }
  }
}

/** Monero addresses: network prefix, two public keys and a checksum. */
module MoneroAddress {
  import opened Numerals
  import opened Base58
  import opened MoneroBase58
  import opened Wrappers
  import opened Scalars
  import opened KeyShares

  datatype Environment = MainnetEnv | StagenetEnv | DevelopmentEnv
  datatype Network = Mainnet | Stagenet | Testnet
  datatype AddressError =
    | NotInitialized
    | ChecksumMismatch
    | UnknownPrefix
    | BadEncoding(decode: DecodeError)
    | GotMainnet
    | GotStagenet
    | GotTestnet

  const PREFIXES: set<nat> := {18, 42, 24, 36, 53, 63}

  function Checksum(keccak: seq<byte> -> Bytes32, data: seq<byte>): (c: seq<byte>)
    ensures |c| == 4
  {
    keccak(data)[..4]
  }

  /** `validateDecoded`: the checksum first, then the network prefix. */
  function ValidateDecoded(keccak: seq<byte> -> Bytes32, decoded: seq<byte>): (err: Option<AddressError>)
    requires |decoded| == ADDRESS_BYTES
  {
    if Checksum(keccak, decoded[..65]) != decoded[65..69] then Some(ChecksumMismatch)
    else if decoded[0] !in PREFIXES then Some(UnknownPrefix)
    else None
  }

  function NetworkOf(decoded: seq<byte>): (n: Network)
    requires |decoded| == ADDRESS_BYTES && decoded[0] in PREFIXES
  {
    if decoded[0] in {18, 42} then Mainnet else if decoded[0] in {24, 36} then Stagenet else Testnet
  }

  function ValidateEnv(decoded: seq<byte>, env: Environment): (err: Option<AddressError>)
    requires |decoded| == ADDRESS_BYTES && (decoded == Zeros(ADDRESS_BYTES) || decoded[0] in PREFIXES)
  {
    if decoded == Zeros(ADDRESS_BYTES) then Some(NotInitialized)
    else match NetworkOf(decoded)
      case Mainnet => if env.StagenetEnv? then Some(GotMainnet) else None
      case Stagenet => if !env.StagenetEnv? then Some(GotStagenet) else None
      case Testnet => Some(GotTestnet)
  }

  /** `PublicKeyPair.Address`. */
  function AddressOf<P>(keccak: seq<byte> -> Bytes32, g: Group<P>, kp: PublicKeyPair<P>, env: Environment): (decoded: seq<byte>)
    ensures |decoded| == ADDRESS_BYTES
  {
    var prefix: byte := if env.StagenetEnv? then 24 else 18;
    var body: seq<byte> := [prefix] + g.bytes(kp.sk) + g.bytes(kp.vk);
    body + Checksum(keccak, body)
  }

  class Address {
    var decoded: seq<byte>

    ghost predicate Valid()
      reads this
    {
      |decoded| == ADDRESS_BYTES
    }

    constructor ()
      ensures Valid() && decoded == Zeros(ADDRESS_BYTES)
    {
      decoded := Bytes(Zeros(ADDRESS_BYTES));
    }

    method MarshalText(keccak: seq<byte> -> Bytes32) returns (text: string, err: Option<AddressError>)
      requires Valid()
      ensures err.None? <==> decoded[65..] == keccak(decoded[..65])[..4] && decoded[0] in {18, 42, 24, 36, 53, 63}
      ensures err == ValidateDecoded(keccak, decoded)
      ensures err.None? ==> text == EncodeAddress(decoded)
    {
      assert decoded[65..69] == decoded[65..];
      err := ValidateDecoded(keccak, decoded);
      text := "";
      if err.None? {
        text := AddrBytesToBase58(decoded);
      }
    }

    /** Overwrites the address only after every check has passed. */
    method UnmarshalText(keccak: seq<byte> -> Bytes32, input: string) returns (err: Option<AddressError>)
      requires Valid()
      modifies this
      ensures Valid()
      ensures Parse(keccak, input).Err? ==> err == Some(Parse(keccak, input).error) && decoded == old(decoded)
      ensures Parse(keccak, input).Ok? ==> err == None && decoded == Parse(keccak, input).value
    {
      var r := AddrBase58ToBytes(input);
      if r.Err? {
        return Some(BadEncoding(r.error));
      }
      DecodedAddressBlocks(input);
      var newAddr := new Address();
      newAddr.decoded := r.value;
      err := ValidateDecoded(keccak, newAddr.decoded);
      if err.None? {
        decoded := newAddr.decoded;
      }
    }
  }

  function Parse(keccak: seq<byte> -> Bytes32, input: string): (r: Result<seq<byte>, AddressError>)
    ensures r.Ok? ==> |r.value| == ADDRESS_BYTES && ValidateDecoded(keccak, r.value).None?
  {
    match DecodeAddress(input)
    case Err(e) => Err(BadEncoding(e))
    case Ok(bytes) =>
      DecodedAddressBlocks(input);
      match ValidateDecoded(keccak, bytes)
      case Some(e) => Err(e)
      case None => Ok(bytes)
  }

  /** An address built from keys passes every check of its own environment, and printing then parsing
      it gives it back. */
  lemma BuiltAddressParses<P>(keccak: seq<byte> -> Bytes32, g: Group<P>, kp: PublicKeyPair<P>, env: Environment)
    ensures var a := AddressOf(keccak, g, kp, env);
            && ValidateDecoded(keccak, a).None?
            && ValidateEnv(a, env).None?
            && Parse(keccak, EncodeAddress(a)) == Ok(a)
  {
    hide EncodeAddress, DecodeAddress;
    var a := AddressOf(keccak, g, kp, env);
    var body := [a[0]] + g.bytes(kp.sk) + g.bytes(kp.vk);
    assert a[..65] == body && a[65..69] == Checksum(keccak, body);
    assert a[0] != Zeros(ADDRESS_BYTES)[0];
    AddressRoundTrip(a);
  }

  /** A string is accepted exactly when it decodes to bytes that end in the first four bytes of the hash of the rest
      and start with one of the six prefixes. */
  lemma ParseIff(keccak: seq<byte> -> Bytes32, input: string)
    ensures Parse(keccak, input).Ok? <==>
            && DecodeAddress(input).Ok?
            && |DecodeAddress(input).value| == 69
            && var b := DecodeAddress(input).value; b[65..] == keccak(b[..65])[..4] && b[0] in {18, 42, 24, 36, 53, 63}
    ensures Parse(keccak, input).Ok? ==> Parse(keccak, input).value == DecodeAddress(input).value
  {
    hide DecodeAddress;
    if DecodeAddress(input).Ok? {
      DecodedAddressBlocks(input);
      var b := DecodeAddress(input).value;
      assert b[65..69] == b[65..];
    }
  }

  /** So of all checksums on a 65-byte body exactly one is accepted, every other is a checksum mismatch, and a body
      with another prefix is refused. */
  lemma ParseChecksum(keccak: seq<byte> -> Bytes32, body: seq<byte>, tail: seq<byte>)
    requires |body| == 65 && |tail| == 4
    ensures Parse(keccak, EncodeAddress(body + tail))
         == if tail != keccak(body)[..4] then Err(ChecksumMismatch)
            else if body[0] in {18, 42, 24, 36, 53, 63} then Ok(body + tail)
            else Err(UnknownPrefix)
  {
    hide EncodeAddress, DecodeAddress;
    var a := body + tail;
    AddressRoundTrip(a);
    assert a[..65] == body && a[65..69] == tail;
  }

  /** Where everything is in an address built from keys. */
  lemma AddressLayout<P>(keccak: seq<byte> -> Bytes32, g: Group<P>, kp: PublicKeyPair<P>, env: Environment)
    ensures var a := AddressOf(keccak, g, kp, env);
            && a[0] == (if env == StagenetEnv then 24 else 18)
            && a[1..33] == g.bytes(kp.sk) && a[33..65] == g.bytes(kp.vk)
            && a[65..] == keccak(a[..65])[..4]
  {
    var a := AddressOf(keccak, g, kp, env);
    var body := [a[0]] + g.bytes(kp.sk) + g.bytes(kp.vk);
    assert a[..65] == body;
  }

  /** The network check accepts a well-formed address exactly in the environments of its own network. */
  lemma EnvironmentsDisjoint(decoded: seq<byte>, env: Environment)
    requires |decoded| == ADDRESS_BYTES && decoded[0] in PREFIXES
    ensures ValidateEnv(decoded, env).None? <==> decoded[0] in (if env == StagenetEnv then {24, 36} else {18, 42})
    ensures decoded[0] in {53, 63} ==> ValidateEnv(decoded, env) == Some(GotTestnet)
  {
    assert Zeros(ADDRESS_BYTES)[0] == 0;
  }

  /** Addresses in one environment agree exactly when both public keys do. */
  lemma AddressInjective<P(!new)>(keccak: seq<byte> -> Bytes32, g: Group<P>, x: PublicKeyPair<P>, y: PublicKeyPair<P>, env: Environment)
    requires EncodesInjectively(g)
    ensures AddressOf(keccak, g, x, env) == AddressOf(keccak, g, y, env) <==> x == y
  {
    var a, b := AddressOf(keccak, g, x, env), AddressOf(keccak, g, y, env);
    assert a[1..33] == g.bytes(x.sk) && a[33..65] == g.bytes(x.vk);
    assert b[1..33] == g.bytes(y.sk) && b[33..65] == g.bytes(y.vk);
  }

  /** The wallet both parties build from public keys alone is the one the claim key pair opens, and no other
      key pair has its address. */
  lemma ClaimAddress<P(!new)>(keccak: seq<byte> -> Bytes32, g: Group<P>, a: PrivateKeyPair, b: PrivateKeyPair, kp: PrivateKeyPair, env: Environment)
    requires IsKeyGroup(g) && EncodesInjectively(g)
    ensures AddressOf(keccak, g, PublicPair(g, kp), env)
         == AddressOf(keccak, g, SumSpendAndViewKeys(g, PublicPair(g, a), PublicPair(g, b)), env)
       <==> kp == GetClaimKeypair(a.sk, b.sk, a.vk, b.vk)
  {
    hide AddressOf, IsKeyGroup, EncodesInjectively;
    ClaimKeypairControls(g, a, b, kp);
    AddressInjective(keccak, g, PublicPair(g, kp), SumSpendAndViewKeys(g, PublicPair(g, a), PublicPair(g, b)), env);
  }
}
