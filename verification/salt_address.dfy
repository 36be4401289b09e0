/**
 Addresses as bytes, their hexadecimal text, the CREATE2 address of an EIP-1167 proxy, and
 the vanity suffix test (src/services/token/salt.rs, src/utils/mod.rs).
 Keccak-256 is a parameter: nothing here depends on more than the length of its digest.
 */
module SaltAddress {
  import opened Arithmetic
  import opened Prelude
  import opened Text

  type Byte = b: int | 0 <= b < 256
  type Digit = d: int | 0 <= d < 16
  type Digest = d: seq<Byte> | |d| == 32 witness seq(32, _ => 0)
  type Address = a: seq<Byte> | |a| == 20 witness seq(20, _ => 0)
  type Keccak = seq<Byte> -> Digest

  // ----- Numbers as big-endian bytes and hex digits -----

  /** The unsigned integer a byte string stands for, big-endian. */
  function ByteValue(bytes: seq<Byte>): nat {
    if bytes == [] then 0 else ByteValue(bytes[..|bytes| - 1]) * 256 + bytes[|bytes| - 1]
  }

  /** `n mod 256^k` as exactly `k` big-endian bytes. */
  function ToBytes(n: nat, k: nat): (bytes: seq<Byte>)
    ensures |bytes| == k
  {
    if k == 0 then [] else ToBytes(n / 256, k - 1) + [n % 256]
  }

  function DigitsValue(ds: seq<Digit>): nat {
    if ds == [] then 0 else DigitsValue(ds[..|ds| - 1]) * 16 + ds[|ds| - 1]
  }

  lemma {:induction false} ByteValueInjective(a: seq<Byte>, b: seq<Byte>)
    requires |a| == |b| && ByteValue(a) == ByteValue(b)
    ensures a == b
  {
    if a == [] {
    } else {
      var n := |a| - 1;
      ByteValueInjective(a[..n], b[..n]);
      assert a == a[..n] + [a[n]] && b == b[..n] + [b[n]];
    }
  }

  lemma {:induction false} DigitsValueInjective(a: seq<Digit>, b: seq<Digit>)
    requires |a| == |b| && DigitsValue(a) == DigitsValue(b)
    ensures a == b
  {
    if a == [] {
    } else {
      var n := |a| - 1;
      DigitsValueInjective(a[..n], b[..n]);
      assert a == a[..n] + [a[n]] && b == b[..n] + [b[n]];
    }
  }

  lemma {:induction false} DigitsValueBound(ds: seq<Digit>)
    ensures DigitsValue(ds) < Pow(16, |ds|)
  {
    if ds == [] {
    } else {
      DigitsValueBound(ds[..|ds| - 1]);
    }
  }

  /** Dropping leading hex digits keeps the value modulo the power of 16 that remains. */
  lemma {:induction false} DigitsSuffix(ds: seq<Digit>, k: nat)
    requires k <= |ds|
    ensures DigitsValue(ds) == DigitsValue(ds[..|ds| - k]) * Pow(16, k) + DigitsValue(ds[|ds| - k..])
  {
    if k == 0 {
      assert ds[..|ds|] == ds;
    } else {
      var n := |ds| - 1;
      DigitsSuffix(ds[..n], k - 1);
      assert ds[..n][..n - (k - 1)] == ds[..|ds| - k];
      assert ds[..n][n - (k - 1)..] == ds[|ds| - k..][..k - 1];
      var high, p := DigitsValue(ds[..|ds| - k]), Pow(16, k - 1);
      ScaleOut(high, 16, p);
    }
  }

  /** Writing a number as `k` bytes and reading it back loses only a multiple of 256^k. */
  lemma {:induction false} ToBytesRoundTrip(n: nat, k: nat)
    ensures ByteValue(ToBytes(n, k)) == n % Pow(256, k)
  {
    if k == 0 {
    } else {
      var p, q := Pow(256, k - 1), n / 256;
      ToBytesRoundTrip(q, k - 1);
      assert ToBytes(n, k)[..k - 1] == ToBytes(q, k - 1);
      DigitShift(n, p);
    }
  }

  /** The remainder modulo 256*p is the remainder of n/256 modulo p with the last byte appended. */
  lemma DigitShift(n: nat, p: nat)
    requires p > 0
    ensures n % (256 * p) == (n / 256 % p) * 256 + n % 256
  {
    var hi, lo := n / 256 / p, n / 256 % p;
    assert n / 256 == hi * p + lo;
    ScaleOut(hi, 256, p);
    assert n == hi * (256 * p) + (lo * 256 + n % 256);
    RemainderOf(n, hi, 256 * p, lo * 256 + n % 256);
  }

  // ----- Hexadecimal text -----

  predicate IsHex(c: char) { '0' <= c <= '9' || 'a' <= c <= 'f' || 'A' <= c <= 'F' }

  predicate AllHex(s: string) { forall i :: 0 <= i < |s| ==> IsHex(s[i]) }

  function DigitOf(c: char): (d: Digit)
    requires IsHex(c)
    ensures DigitChar(d) == LowerChar(c)
  {
    if '0' <= c <= '9' then c as int - '0' as int
    else if 'a' <= c <= 'f' then c as int - 'a' as int + 10
    else c as int - 'A' as int + 10
  }

  function Digits(s: string): (ds: seq<Digit>)
    requires AllHex(s)
    ensures |ds| == |s| && forall i :: 0 <= i < |s| ==> ds[i] == DigitOf(s[i])
  {
    seq(|s|, i requires 0 <= i < |s| => DigitOf(s[i]))
  }

  function HexValue(s: string): nat
    requires AllHex(s)
  {
    DigitsValue(Digits(s))
  }

  /** The `j`-th hex digit of a byte string: high half first. */
  function Nibble(bytes: seq<Byte>, j: nat): Digit
    requires j < 2 * |bytes|
  {
    if j % 2 == 0 then bytes[j / 2] / 16 else bytes[j / 2] % 16
  }

  function Nibbles(bytes: seq<Byte>): (ds: seq<Digit>)
    ensures |ds| == 2 * |bytes| && forall j :: 0 <= j < |ds| ==> ds[j] == Nibble(bytes, j)
  {
    seq(2 * |bytes|, j requires 0 <= j < 2 * |bytes| => Nibble(bytes, j))
  }

  /** `hex::encode`: two lower-case digits a byte. */
  function HexEncode(bytes: seq<Byte>): (s: string)
    ensures AllHex(s) && Lower(s) == s && Digits(s) == Nibbles(bytes)
  {
    var ds := Nibbles(bytes);
    seq(|ds|, j requires 0 <= j < |ds| => DigitChar(ds[j]))
  }

  lemma {:induction false} NibblesValue(bytes: seq<Byte>)
    ensures DigitsValue(Nibbles(bytes)) == ByteValue(bytes)
  {
    if bytes == [] {
    } else {
      var n := |bytes| - 1;
      var front := Nibbles(bytes[..n]);
      NibblesValue(bytes[..n]);
      NibblesAppend(bytes);
      DigitsAppend(front, bytes[n] / 16);
      DigitsAppend(front + [bytes[n] / 16], bytes[n] % 16);
    }
  }

  lemma NibblesAppend(bytes: seq<Byte>)
    requires bytes != []
    ensures var n := |bytes| - 1;
            Nibbles(bytes) == Nibbles(bytes[..n]) + [bytes[n] / 16] + [bytes[n] % 16]
  {
  }

  lemma DigitsAppend(ds: seq<Digit>, d: Digit)
    ensures DigitsValue(ds + [d]) == DigitsValue(ds) * 16 + d
  {
    assert (ds + [d])[..|ds|] == ds;
  }

  /** Hex text denotes the same number as the bytes it was made from. */
  lemma HexEncodeValue(bytes: seq<Byte>)
    ensures HexValue(HexEncode(bytes)) == ByteValue(bytes)
  {
    NibblesValue(bytes);
  }

  /** Same-length hex texts denote the same number exactly when they agree up to letter case. */
  lemma HexValueInjective(a: string, b: string)
    requires AllHex(a) && AllHex(b) && |a| == |b|
    ensures HexValue(a) == HexValue(b) <==> Lower(a) == Lower(b)
  {
    if HexValue(a) == HexValue(b) {
      DigitsValueInjective(Digits(a), Digits(b));
      forall i | 0 <= i < |a| ensures LowerChar(a[i]) == LowerChar(b[i]) {
        assert Digits(a)[i] == Digits(b)[i];
      }
    }
    if Lower(a) == Lower(b) {
      forall i | 0 <= i < |a| ensures Digits(a)[i] == Digits(b)[i] {
        assert Lower(a)[i] == Lower(b)[i];
      }
      assert Digits(a) == Digits(b);
    }
  }

  // ----- The vanity suffix -----

  predicate EndsWith(s: string, suffix: string) {
    |suffix| <= |s| && s[|s| - |suffix|..] == suffix
  }

  /** `address_ends_with`, applied to the suffix that mining has lower-cased. */
  predicate AddressEndsWith(address: Address, suffix: string) {
    EndsWith(HexEncode(address), suffix)
  }

  /**
   The textual test is arithmetic: for a hex suffix of `k <= 40` digits in any letter case the
   address matches exactly when it is congruent to the suffix value modulo 16^k.
   */
  lemma SuffixTestIsArithmetic(address: Address, suffix: string)
    requires AllHex(suffix) && |suffix| <= 40
    ensures AddressEndsWith(address, Lower(suffix))
       <==> ByteValue(address) % Pow(16, |suffix|) == HexValue(suffix)
  {
    var h := HexEncode(address);
    var tail := h[40 - |suffix|..];
    HexEncodeValue(address);
    DigitsRemainder(Digits(h), |suffix|);
    assert Digits(h)[40 - |suffix|..] == Digits(tail);
    HexValueInjective(tail, suffix);
    LowerTail(h, 40 - |suffix|);
  }

  lemma DigitsRemainder(ds: seq<Digit>, k: nat)
    requires k <= |ds|
    ensures DigitsValue(ds) % Pow(16, k) == DigitsValue(ds[|ds| - k..])
  {
    DigitsSuffix(ds, k);
    DigitsValueBound(ds[|ds| - k..]);
    RemainderOf(DigitsValue(ds), DigitsValue(ds[..|ds| - k]), Pow(16, k), DigitsValue(ds[|ds| - k..]));
  }

  lemma LowerTail(s: string, i: nat)
    requires i <= |s|
    ensures Lower(s[i..]) == Lower(s)[i..]
  {
  }

  /** Only hex suffixes of at most 40 digits can ever match. */
  lemma MatchingSuffixIsHex(address: Address, suffix: string)
    requires AddressEndsWith(address, Lower(suffix))
    ensures AllHex(suffix) && |suffix| <= 40
  {
    var h := HexEncode(address);
    forall i | 0 <= i < |suffix| ensures IsHex(suffix[i]) {
      assert h[40 - |suffix|..][i] == Lower(suffix)[i];
    }
  }

  // ----- Text forms accepted by the API -----

  /** Reading hex digits two at a time. */
  function HexDecode(s: string): (bytes: seq<Byte>)
    requires AllHex(s) && |s| % 2 == 0
    ensures |bytes| == |s| / 2
  {
    var ds := Digits(s);
    seq(|s| / 2, i requires 0 <= i < |s| / 2 => ByteOf(ds[2 * i], ds[2 * i + 1]))
  }

  function ByteOf(high: Digit, low: Digit): (b: Byte)
    ensures b / 16 == high && b % 16 == low
  {
    (high as int) * 16 + low
  }

  lemma HexDecodeNibbles(s: string)
    requires AllHex(s) && |s| % 2 == 0
    ensures Nibbles(HexDecode(s)) == Digits(s)
  {
    var bytes, ds := HexDecode(s), Digits(s);
    forall j | 0 <= j < |s| ensures Nibble(bytes, j) == ds[j] {
      var i := j / 2;
      assert bytes[i] == ByteOf(ds[2 * i], ds[2 * i + 1]);
    }
  }

  /** Decoding undoes encoding, in any letter case. */
  lemma HexRoundTrip(bytes: seq<Byte>, text: string)
    requires Lower(text) == HexEncode(bytes)
    ensures AllHex(text) && |text| == 2 * |bytes| && HexDecode(text) == bytes
  {
    var h := HexEncode(bytes);
    forall j | 0 <= j < |text| ensures IsHex(text[j]) {
      assert LowerChar(text[j]) == h[j];
    }
    HexValueInjective(text, h);
    HexDecodeNibbles(text);
    NibblesInjective(HexDecode(text), bytes) by {
      forall j | 0 <= j < |text| ensures Digits(text)[j] == Digits(h)[j] {
        assert LowerChar(text[j]) == h[j] == LowerChar(h[j]);
      }
      assert Digits(text) == Digits(h);
    }
  }

  lemma DecodeThenEncode(text: string)
    requires AllHex(text) && |text| % 2 == 0
    ensures HexEncode(HexDecode(text)) == Lower(text)
  {
    var h := HexEncode(HexDecode(text));
    HexDecodeNibbles(text);
    assert Digits(h) == Digits(text);
    HexValueInjective(h, text);
  }

  lemma NibblesInjective(a: seq<Byte>, b: seq<Byte>)
    requires Nibbles(a) == Nibbles(b)
    ensures a == b
  {
    forall i | 0 <= i < |a| ensures a[i] == b[i] {
      assert Nibbles(a)[2 * i] == Nibbles(b)[2 * i];
      assert Nibbles(a)[2 * i + 1] == Nibbles(b)[2 * i + 1];
    }
  }

  /** `Address::from_str`: 40 hex digits in any case, with or without "0x"; no checksum test. */
  function ParseAddress(s: string): Option<Address> {
    var body := if |s| >= 2 && s[0] == '0' && s[1] == 'x' then s[2..] else s;
    if |body| == 40 && AllHex(body) then Some(HexDecode(body)) else None
  }

  /** `valid_account_id`, for a given EIP-55 rendering. */
  function ValidAccountId(checksum: Address -> string, text: string): Option<string> {
    match ParseAddress(text)
    case None => None
    case Some(a) => Some(checksum(a))
  }

  /** `valid_token_id`: the configured suffix, compared in lower case, and then the address form. */
  function ValidTokenId(checksum: Address -> string, vanitySuffix: string, tokenId: string): Option<string> {
    if !EndsWith(Lower(tokenId), Lower(vanitySuffix)) then None
    else ValidAccountId(checksum, tokenId)
  }

  /** All that is assumed of EIP-55: it starts with "0x" and only changes the case of hex digits. */
  ghost predicate IsChecksumRendering(checksum: Address -> string) {
    forall a: Address {:trigger checksum(a)} ::
      Lower(checksum(a)) == "0x" + HexEncode(a) && |checksum(a)| > 1 && checksum(a)[1] == 'x'
  }

  /** Every letter-case form of an address is read back as that address. */
  lemma ParseAnyCase(a: Address, text: string)
    requires Lower(text) == "0x" + HexEncode(a) && text[1] == 'x'
    ensures ParseAddress(text) == Some(a)
  {
    assert Lower(text)[0] == '0';
    assert Lower(text[2..]) == Lower(text)[2..] == HexEncode(a);
    HexRoundTrip(a, text[2..]);
  }

  /**
   Whatever address the miner returns for the configured suffix, its EIP-55 form is accepted
   by `valid_token_id` and comes back unchanged.
   */
  lemma MinedAddressIsValidTokenId(checksum: Address -> string, a: Address, vanitySuffix: string)
    requires IsChecksumRendering(checksum)
    requires AddressEndsWith(a, Lower(vanitySuffix))
    ensures ValidTokenId(checksum, vanitySuffix, checksum(a)) == Some(checksum(a))
  {
    var h := HexEncode(a);
    ParseAnyCase(a, checksum(a));
    TailOfTail("0x" + h, 40, |vanitySuffix|);
  }

  /**
   An accepted token id names one address, and that address carries the vanity suffix unless the suffix
   is longer than an address.
   */
  lemma ValidTokenIdHasSuffix(checksum: Address -> string, vanitySuffix: string, tokenId: string)
    requires ValidTokenId(checksum, vanitySuffix, tokenId).Some?
    ensures ParseAddress(tokenId).Some?
    ensures AddressEndsWith(ParseAddress(tokenId).value, Lower(vanitySuffix)) <==> |vanitySuffix| <= 40
  {
    hide HexEncode, ParseAddress, Lower;
    ParsedText(tokenId);
    if |vanitySuffix| <= 40 {
      TailOfTail(Lower(tokenId), 40, |vanitySuffix|);
    }
  }

  /** The last 40 characters of an accepted text are the address, up to letter case. */
  lemma ParsedText(s: string)
    requires ParseAddress(s).Some?
    ensures |s| >= 40 && HexEncode(ParseAddress(s).value) == Lower(s)[|s| - 40..]
  {
    hide HexEncode, HexDecode;
    DecodeThenEncode(s[|s| - 40..]);
    LowerTail(s, |s| - 40);
    assert s[0..] == s;
  }

  lemma TailOfTail(s: string, n: nat, k: nat)
    requires k <= n <= |s|
    ensures s[|s| - n..][n - k..] == s[|s| - k..]
  {
  }

  // ----- CREATE2 -----

  /** The first half of the prefix returns the code that follows it; the second half is where that begins. */
  const LOADER: seq<Byte> := [0x3d, 0x60, 0x2d, 0x80, 0x60, 0x0a, 0x3d, 0x39, 0x81, 0xf3]

  const RUNTIME_HEAD: seq<Byte> := [0x36, 0x3d, 0x3d, 0x37, 0x3d, 0x3d, 0x3d, 0x36, 0x3d, 0x73]

  const CREATION_PREFIX: seq<Byte> := LOADER + RUNTIME_HEAD

  /** The call to the implementation, and what returns or reverts with its answer. */
  const DELEGATE_CALL: seq<Byte> := [0x5a, 0xf4, 0x3d, 0x82, 0x80, 0x3e, 0x90, 0x3d]

  const PASS_ON: seq<Byte> := [0x91, 0x60, 0x2b, 0x57, 0xfd, 0x5b, 0xf3]

  const RUNTIME_SUFFIX: seq<Byte> := DELEGATE_CALL + PASS_ON

  /** EIP-1167 creation code: prefix, implementation address, suffix. */
  function InitCode(implementation: Address): seq<Byte> {
    CREATION_PREFIX + implementation + RUNTIME_SUFFIX
  }

  /** EIP-1014 preimage: 0xff, deployer, salt, hash of the creation code. */
  function Create2Preimage(deployer: Address, salt: Digest, initCodeHash: Digest): seq<Byte> {
    [0xff] + deployer + salt + initCodeHash
  }

  function Create2Address(keccak: Keccak, deployer: Address, implementation: Address, salt: Digest): Address {
    keccak(Create2Preimage(deployer, salt, keccak(InitCode(implementation))))[12..]
  }

  /** ERC-1167's creation code, as the standard writes it. */
  predicate IsProxyCode(code: seq<Byte>, implementation: Address) {
    HexEncode(code)
    == "3d602d80600a3d3981f3" + "363d3d373d3d3d363d73" + HexEncode(implementation)
       + ("5af43d82803e903d" + "91602b57fd5bf3")
  }

  /** EIP-1014's preimage, field by field. */
  predicate IsPreimage(pre: seq<Byte>, deployer: Address, salt: Digest, codeHash: Digest) {
    |pre| == 85 && pre[0] == 0xff && pre[1..21] == deployer && pre[21..53] == salt && pre[53..] == codeHash
  }

  /** The address is the digest of the preimage modulo 2^160. */
  ghost predicate IsCreate2(keccak: Keccak, deployer: Address, implementation: Address, salt: Digest,
                            address: Address) {
    exists code, pre ::
      && IsProxyCode(code, implementation) && IsPreimage(pre, deployer, salt, keccak(code))
      && ByteValue(address) == ByteValue(keccak(pre)) % Pow(256, 20)
  }

  lemma HexConcat(a: seq<Byte>, b: seq<Byte>)
    ensures HexEncode(a + b) == HexEncode(a) + HexEncode(b)
  {
    forall j | 0 <= j < 2 * |a + b| ensures Nibble(a + b, j) == (Nibbles(a) + Nibbles(b))[j] {
      assert j < 2 * |a| || j - 2 * |a| < 2 * |b|;
    }
    assert Nibbles(a + b) == Nibbles(a) + Nibbles(b);
  }

  lemma HexInjective(a: seq<Byte>, b: seq<Byte>)
    requires HexEncode(a) == HexEncode(b)
    ensures a == b
  {
    assert Nibbles(a) == Digits(HexEncode(a)) == Nibbles(b);
    NibblesInjective(a, b);
  }

  lemma HexIs(bytes: seq<Byte>, s: string)
    requires |s| == 2 * |bytes|
    requires forall i :: 0 <= i < |bytes| ==>
      s[2 * i] == DigitChar(bytes[i] / 16) && s[2 * i + 1] == DigitChar(bytes[i] % 16)
    ensures HexEncode(bytes) == s
  {
    var ds := Nibbles(bytes);
    forall j | 0 <= j < |s| ensures s[j] == DigitChar(ds[j]) {
      assert j == 2 * (j / 2) || j == 2 * (j / 2) + 1;
    }
  }

  lemma LoaderText()
    ensures HexEncode(LOADER) == "3d602d80600a3d3981f3"
  {
    hide HexEncode;
    HexIs(LOADER, "3d602d80600a3d3981f3");
  }

  lemma HeadText()
    ensures HexEncode(RUNTIME_HEAD) == "363d3d373d3d3d363d73"
  {
    hide HexEncode;
    HexIs(RUNTIME_HEAD, "363d3d373d3d3d363d73");
  }

  lemma SuffixText()
    ensures HexEncode(RUNTIME_SUFFIX) == "5af43d82803e903d" + "91602b57fd5bf3"
  {
    hide HexEncode;
    CallText();
    PassOnText();
    HexConcat(DELEGATE_CALL, PASS_ON);
  }

  lemma CallText()
    ensures HexEncode(DELEGATE_CALL) == "5af43d82803e903d"
  {
    hide HexEncode;
    HexIs(DELEGATE_CALL, "5af43d82803e903d");
  }

  lemma PassOnText()
    ensures HexEncode(PASS_ON) == "91602b57fd5bf3"
  {
    hide HexEncode;
    HexIs(PASS_ON, "91602b57fd5bf3");
  }

  lemma InitCodeIsProxy(implementation: Address)
    ensures IsProxyCode(InitCode(implementation), implementation)
  {
    hide HexEncode;
    LoaderText();
    HeadText();
    SuffixText();
    CodeText(LOADER, RUNTIME_HEAD, implementation, RUNTIME_SUFFIX);
  }

  lemma CodeText(a: seq<Byte>, b: seq<Byte>, c: seq<Byte>, d: seq<Byte>)
    ensures HexEncode(a + b + c + d) == HexEncode(a) + HexEncode(b) + HexEncode(c) + HexEncode(d)
  {
    hide HexEncode;
    HexConcat(a, b);
    HexConcat(a + b, c);
    HexConcat(a + b + c, d);
  }

  /**
   The layouts are the standard ones: 55 bytes of creation code, which hex-encode to the text of ERC-1167
   and whose tail from byte 10 is the 45-byte runtime that the leading PUSH1 operands announce, and an
   85-byte preimage from which deployer, salt and code hash can all be read back.
   */
  lemma Create2Layout(deployer: Address, implementation: Address, salt: Digest, codeHash: Digest)
    ensures var code := InitCode(implementation);
      && |code| == 55 && code[5] == 10 && code[2] == |code[code[5]..]| == 45 && code[20..40] == implementation
      && IsProxyCode(code, implementation)
    ensures IsPreimage(Create2Preimage(deployer, salt, codeHash), deployer, salt, codeHash)
  {
    var pre := Create2Preimage(deployer, salt, codeHash);
    assert pre[1..21] == deployer;
    assert pre[21..53] == salt;
    assert pre[53..] == codeHash;
    assert InitCode(implementation)[20..40] == implementation;
    InitCodeIsProxy(implementation);
  }

  lemma {:induction false} ByteSuffix(bytes: seq<Byte>, k: nat)
    requires k <= |bytes|
    ensures ByteValue(bytes) == ByteValue(bytes[..|bytes| - k]) * Pow(256, k) + ByteValue(bytes[|bytes| - k..])
    ensures ByteValue(bytes[|bytes| - k..]) < Pow(256, k)
  {
    if k == 0 {
      assert bytes[..|bytes|] == bytes;
    } else {
      var n := |bytes| - 1;
      ByteSuffix(bytes[..n], k - 1);
      assert bytes[..n][..n - (k - 1)] == bytes[..|bytes| - k];
      assert bytes[..n][n - (k - 1)..] == bytes[|bytes| - k..][..k - 1];
      ScaleOut(ByteValue(bytes[..|bytes| - k]), 256, Pow(256, k - 1));
    }
  }

  lemma LastBytes(digest: Digest)
    ensures ByteValue(digest[12..]) == ByteValue(digest) % Pow(256, 20)
  {
    hide Pow, ByteValue;
    ByteSuffix(digest, 20);
    RemainderOf(ByteValue(digest), ByteValue(digest[..12]), Pow(256, 20), ByteValue(digest[12..]));
  }

  /** The mined address is the one CREATE2 deploys to, and the only such address. */
  lemma Create2AddressIff(keccak: Keccak, deployer: Address, implementation: Address, salt: Digest, address: Address)
    ensures IsCreate2(keccak, deployer, implementation, salt, address)
       <==> address == Create2Address(keccak, deployer, implementation, salt)
  {
    hide Pow, ByteValue, HexEncode, InitCode, Create2Preimage, IsProxyCode, IsPreimage;
    var code := InitCode(implementation);
    var pre := Create2Preimage(deployer, salt, keccak(code));
    Create2Layout(deployer, implementation, salt, keccak(code));
    LastBytes(keccak(pre));
    if c, p :| IsProxyCode(c, implementation) && IsPreimage(p, deployer, salt, keccak(c))
               && ByteValue(address) == ByteValue(keccak(p)) % Pow(256, 20) {
      ProxyCodeUnique(c, code, implementation);
      PreimageUnique(p, pre, deployer, salt, keccak(code));
      ByteValueInjective(address, keccak(pre)[12..]);
    }
  }

  lemma ProxyCodeUnique(a: seq<Byte>, b: seq<Byte>, implementation: Address)
    requires IsProxyCode(a, implementation) && IsProxyCode(b, implementation)
    ensures a == b
  {
    hide HexEncode;
    HexInjective(a, b);
  }

  lemma PreimageUnique(a: seq<Byte>, b: seq<Byte>, deployer: Address, salt: Digest, codeHash: Digest)
    requires IsPreimage(a, deployer, salt, codeHash) && IsPreimage(b, deployer, salt, codeHash)
    ensures a == b
  {
    assert a == [a[0]] + a[1..21] + a[21..53] + a[53..];
    assert b == [b[0]] + b[1..21] + b[21..53] + b[53..];
  }

  /** `compute_create2_address`: both buffers are grown piece by piece and hashed. */
  method ComputeCreate2Address(keccak: Keccak, deployer: Address, implementation: Address, salt: Digest)
    returns (address: Address)
    ensures IsCreate2(keccak, deployer, implementation, salt, address)
    ensures address == Create2Address(keccak, deployer, implementation, salt)
  {
    hide IsCreate2;
    var initCode: seq<Byte> := [];
    initCode := initCode + CREATION_PREFIX;
    initCode := initCode + implementation;
    initCode := initCode + RUNTIME_SUFFIX;
    assert initCode == InitCode(implementation);
    var initCodeHash := keccak(initCode);

    var input: seq<Byte> := [];
    input := input + [0xff];
    input := input + deployer;
    input := input + salt;
    input := input + initCodeHash;
    assert input == Create2Preimage(deployer, salt, initCodeHash);
    address := keccak(input)[12..];
    Create2AddressIff(keccak, deployer, implementation, salt, address);
  }
}
