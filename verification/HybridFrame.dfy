/** The hybrid ciphertext frame: an ABE-wrapped random key and an AEAD body behind a header that is also the
    additional authenticated data (hybrid-cp-abe.cpp). AES-GCM (NIST SP 800-38D, section 7) and the ABE
    wrapping stand as functions of which only the inverse laws are used. */
module HybridFrame {

  type Byte = b: int | 0 <= b < 256
  type Bytes = seq<Byte>

  const FORMAT_VERSION: Byte := 1
  const FORMAT_VERSION_2: Byte := 2
  const GCM_IV_SIZE: nat := 12
  const TWO_TO_THE_64: nat := 0x1_0000_0000_0000_0000

  datatype Error = CryptoFailed | InvalidParam | VersionMismatch | PolicyMismatch | OutOfMemory
  datatype Result<+T> = Ok(value: T) | Err(error: Error)

  datatype Scheme = Ac17 | Tkn20

  /** The scheme a header byte names; other values are in no case of the switch. */
  function SchemeOf(b: Byte): Result<Scheme> {
    if b == 0 then Ok(Ac17) else if b == 1 then Ok(Tkn20) else Err(InvalidParam)
  }

  function SchemeByte(s: Scheme): Byte {
    if s == Ac17 then 0 else 1
  }

  /** The library functions. `allocatesNothing`: whether allocating zero bytes returns a pointer. */
  datatype Library<!Key> = Library(
    wrap: (Scheme, string, Bytes) -> Result<Bytes>,
    unwrap: (Scheme, Key, Bytes) -> Result<Bytes>,
    opens: (Scheme, Key, string) -> bool,
    hash: Bytes -> Bytes,
    seal: (Bytes, Bytes, Bytes, Bytes) -> Bytes,
    unseal: (Bytes, Bytes, Bytes, Bytes) -> Result<Bytes>,
    allocatesNothing: bool)

  /** A satisfying key unwraps what was wrapped. */
  ghost predicate WrapLaw<Key(!new)>(lib: Library<Key>) {
    forall scheme, policy, secret, key |
      lib.wrap(scheme, policy, secret).Ok? && lib.opens(scheme, key, policy) ::
      lib.unwrap(scheme, key, lib.wrap(scheme, policy, secret).value) == Ok(secret)
  }

  /** The same key, nonce and additional data open what was sealed. */
  ghost predicate SealLaw<Key(!new)>(lib: Library<Key>) {
    forall key, iv, aad, text :: lib.unseal(key, iv, aad, lib.seal(key, iv, aad, text)) == Ok(text)
  }

  // ---- integers as bytes

  /** The `k` low bytes of a number, least significant first: how a 64-bit integer lies in memory. */
  function LittleEndian(n: nat, k: nat): (r: Bytes)
    ensures |r| == k
  {
    if k == 0 then [] else [n % 256] + LittleEndian(n / 256, k - 1)
  }

  function FromLittleEndian(bs: Bytes): nat {
    if bs == [] then 0 else bs[0] + 256 * FromLittleEndian(bs[1..])
  }

  function Power256(k: nat): nat {
    if k == 0 then 1 else 256 * Power256(k - 1)
  }

  lemma {:induction false} LittleEndianRoundTrip(n: nat, k: nat)
    requires n < Power256(k)
    ensures FromLittleEndian(LittleEndian(n, k)) == n
  {
    if k > 0 {
      LittleEndianRoundTrip(n / 256, k - 1);
      assert LittleEndian(n, k)[1..] == LittleEndian(n / 256, k - 1);
    }
  }

  lemma {:induction false} LittleEndianOfBytes(bs: Bytes)
    ensures LittleEndian(FromLittleEndian(bs), |bs|) == bs
    ensures FromLittleEndian(bs) < Power256(|bs|)
  {
    if bs != [] {
      LittleEndianOfBytes(bs[1..]);
      var n := FromLittleEndian(bs);
      assert n % 256 == bs[0] && n / 256 == FromLittleEndian(bs[1..]);
    }
  }

  lemma EightBytes()
    ensures Power256(8) == TWO_TO_THE_64
  {
    assert Power256(4) == 0x1_0000_0000;
    assert Power256(8) == 256 * (256 * (256 * (256 * Power256(4))));
  }

  /** The value of big-endian bytes. */
  function Decode(bs: Bytes): nat {
    if bs == [] then 0 else 256 * Decode(bs[..|bs| - 1]) + bs[|bs| - 1]
  }

  function Digits(n: nat): Bytes {
    if n == 0 then [] else Digits(n / 256) + [n % 256]
  }

  /** The shortest big-endian encoding; zero takes one byte. */
  function Encode(n: nat): Bytes {
    if n == 0 then [0] else Digits(n)
  }

  function WithoutLeadingZeros(bs: Bytes): Bytes {
    if bs != [] && bs[0] == 0 then WithoutLeadingZeros(bs[1..]) else bs
  }

  lemma {:induction false} DecodeDigits(n: nat)
    ensures Decode(Digits(n)) == n
  {
    if n > 0 {
      DecodeDigits(n / 256);
      assert Digits(n)[..|Digits(n)| - 1] == Digits(n / 256);
    }
  }

  /** Decoding a minimal encoding gives the number back, so re-encoding gives the same bytes back. */
  lemma MinimalRoundTrip(n: nat)
    ensures Decode(Encode(n)) == n && Encode(Decode(Encode(n))) == Encode(n)
  {
    if n == 0 {
      assert [0 as Byte][..0] == [] && Decode([0]) == 256 * Decode([]) + 0;
    } else {
      DecodeDigits(n);
    }
  }

  /** For any bytes, decoding and re-encoding only removes leading zeros. */
  lemma ReencodeStripsZeros(bs: Bytes)
    ensures Encode(Decode(bs)) == if WithoutLeadingZeros(bs) == [] then [0] else WithoutLeadingZeros(bs)
  {
    DigitsOfDecode(bs);
    if Decode(bs) == 0 { assert Digits(0) == []; } else { assert Digits(Decode(bs)) != []; }
  }

  lemma {:induction false} DigitsOfDecode(bs: Bytes)
    ensures Digits(Decode(bs)) == WithoutLeadingZeros(bs)
  {
    if bs != [] {
      var front, last := bs[..|bs| - 1], bs[|bs| - 1];
      DigitsOfDecode(front);
      StripLast(front, last);
      assert front + [last] == bs;
      var n := Decode(bs);
      assert n / 256 == Decode(front) && n % 256 == last;
      if n == 0 { assert Digits(Decode(front)) == []; }
      if n > 0 && Decode(front) == 0 { assert Digits(0) == []; }
      if Decode(front) > 0 { assert Digits(Decode(front)) != []; }
    }
  }

  lemma {:induction false} StripLast(front: Bytes, last: Byte)
    ensures WithoutLeadingZeros(front + [last]) ==
            if WithoutLeadingZeros(front) == [] && last == 0 then [] else WithoutLeadingZeros(front) + [last]
  {
    if front == [] {
      assert front + [last] == [last] && [last][1..] == [];
    } else {
      assert (front + [last])[1..] == front[1..] + [last];
      if front[0] == 0 { StripLast(front[1..], last); }
    }
  }

  // ---- building

  function Header(scheme: Scheme, iv: Bytes, wrapped: Bytes): Bytes {
    [FORMAT_VERSION_2, SchemeByte(scheme)] + iv + LittleEndian(|wrapped|, 8) + wrapped
  }

  /** `hybrid_cpabe_encryptBuffer_with_scheme`: `randomKey` and `iv` are what the generator drew. */
  method EncryptBuffer<Key>(lib: Library<Key>, policy: string, plaintext: Bytes, scheme: Byte, randomKey: nat,
      iv: Bytes)
    returns (r: Result<Bytes>)
    requires |iv| == GCM_IV_SIZE
    ensures SchemeOf(scheme).Err? ==> r == Err(InvalidParam)
    ensures SchemeOf(scheme).Ok? ==>
      r == var s := SchemeOf(scheme).value;
           var wrapped := lib.wrap(s, policy, Encode(randomKey));
           if wrapped.Err? then Err(wrapped.error)
           else
             var header := Header(s, iv, wrapped.value);
             Ok(header + lib.seal(lib.hash(Encode(randomKey)), iv, header, plaintext))
  {
    var randomKeyStr := Encode(randomKey);
    if SchemeOf(scheme).Err? { return Err(InvalidParam); }
    var s := SchemeOf(scheme).value;
    var abe := lib.wrap(s, policy, randomKeyStr);
    if abe.Err? { return Err(abe.error); }
    var aesKey := lib.hash(randomKeyStr);
    var aad := [FORMAT_VERSION_2];
    aad := aad + [scheme];
    aad := aad + iv;
    aad := aad + LittleEndian(|abe.value|, 8);
    aad := aad + abe.value;
    assert aad == Header(s, iv, abe.value);
    var combined := aad;
    combined := combined + lib.seal(aesKey, iv, aad, plaintext);
    return Ok(combined);
  }

  // ---- parsing

  datatype Frame = Frame(version: Byte, scheme: Byte, iv: Bytes, length: nat, wrapped: Bytes, header: Bytes,
    body: Bytes)

  /** Where the wrapped key starts: after version, scheme byte in version 2, nonce and length. */
  function KeyOffset(version: Byte): nat {
    (if version == FORMAT_VERSION_2 then 2 else 1) + GCM_IV_SIZE + 8
  }

  /** `s.substr(from, count)`: clamped to the end of the string. */
  function Substring(s: Bytes, from: nat, count: nat): Bytes
    requires from <= |s|
  {
    if from + count <= |s| then s[from..from + count] else s[from..]
  }

  /** A frame is accepted when its version is known and its declared parts fit, as 64-bit sums see it. */
  function Accepted(c: Bytes): Result<()> {
    if c == [] then Err(CryptoFailed)
    else if c[0] != FORMAT_VERSION && c[0] != FORMAT_VERSION_2 then Err(VersionMismatch)
    else if |c| < KeyOffset(c[0]) then Err(CryptoFailed)
    else if |c| < (KeyOffset(c[0]) + DeclaredLength(c)) % TWO_TO_THE_64 then Err(CryptoFailed)
    else Ok(())
  }

  function DeclaredLength(c: Bytes): nat
    requires c != [] && |c| >= KeyOffset(c[0])
  {
    FromLittleEndian(c[KeyOffset(c[0]) - 8..KeyOffset(c[0])])
  }

  /** The parts an accepted frame is cut into. */
  function Cut(c: Bytes): Frame
    requires Accepted(c).Ok?
  {
    var start := KeyOffset(c[0]);
    var end := (start + DeclaredLength(c)) % TWO_TO_THE_64;
    Frame(c[0], if c[0] == FORMAT_VERSION_2 then c[1] else 0, c[start - 20..start - 8], DeclaredLength(c),
          Substring(c, start, DeclaredLength(c)), c[..end], c[end..])
  }

  /** The parse loop of `hybrid_cpabe_decryptBuffer`, advancing a 64-bit offset. */
  method ParseFrame(c: Bytes) returns (r: Result<Frame>)
    ensures Accepted(c).Err? ==> r == Err(Accepted(c).error)
    ensures Accepted(c).Ok? ==> r == Ok(Cut(c))
  {
    if |c| == 0 { return Err(CryptoFailed); }
    var version := c[0];
    var scheme: Byte := 0;
    var offset := 1;
    if version == FORMAT_VERSION_2 {
      if |c| < offset + 1 { return Err(CryptoFailed); }
      scheme := c[1];
      offset := offset + 1;
    } else if version != FORMAT_VERSION {
      return Err(VersionMismatch);
    }
    if |c| < offset + GCM_IV_SIZE { return Err(CryptoFailed); }
    var iv := c[offset..offset + GCM_IV_SIZE];
    offset := offset + GCM_IV_SIZE;
    if |c| < offset + 8 { return Err(CryptoFailed); }
    var length := FromLittleEndian(c[offset..offset + 8]);
    offset := offset + 8;
    if |c| < (offset + length) % TWO_TO_THE_64 { return Err(CryptoFailed); }
    var wrapped := Substring(c, offset, length);
    offset := (offset + length) % TWO_TO_THE_64;
    return Ok(Frame(version, scheme, iv, length, wrapped, c[..offset], c[offset..]));
  }

  /** `hybrid_cpabe_decryptBuffer` after parsing: unwrap, re-encode, hash, open. */
  method DecryptBuffer<Key>(lib: Library<Key>, key: Key, c: Bytes) returns (r: Result<Bytes>)
    ensures r == Decrypted(lib, key, c)
  {
    var parsed := ParseFrame(c);
    if parsed.Err? { return Err(parsed.error); }
    var f := parsed.value;
    if SchemeOf(f.scheme).Err? { return Err(InvalidParam); }
    var recovered := lib.unwrap(SchemeOf(f.scheme).value, key, f.wrapped);
    if recovered.Err? { return Err(recovered.error); }
    var recoveredKeyStr := Encode(Decode(recovered.value));
    var aesKey := lib.hash(recoveredKeyStr);
    var text := lib.unseal(aesKey, f.iv, f.header, f.body);
    if text.Err? { return Err(text.error); }
    if text.value == [] && !lib.allocatesNothing { return Err(OutOfMemory); }
    return Ok(text.value);
  }

  function Decrypted<Key>(lib: Library<Key>, key: Key, c: Bytes): Result<Bytes> {
    if Accepted(c).Err? then Err(Accepted(c).error)
    else
      var f := Cut(c);
      if SchemeOf(f.scheme).Err? then Err(InvalidParam)
      else
        var secret := lib.unwrap(SchemeOf(f.scheme).value, key, f.wrapped);
        if secret.Err? then Err(secret.error)
        else
          var text := lib.unseal(lib.hash(Encode(Decode(secret.value))), f.iv, f.header, f.body);
          if text.Ok? && text.value == [] && !lib.allocatesNothing then Err(OutOfMemory) else text
  }

  // ---- the frame splits losslessly

  /** The parts put back together. */
  function Reassembled(f: Frame): Bytes {
    (if f.version == FORMAT_VERSION_2 then [f.version, f.scheme] else [f.version]) +
    f.iv + LittleEndian(f.length, 8) + f.wrapped + f.body
  }

  /** Cutting an accepted frame loses nothing exactly when the end of the wrapped key does not wrap around
      64 bits; then the header is everything before the body. */
  lemma CutLosslessIff(c: Bytes)
    requires Accepted(c).Ok? && |c| < TWO_TO_THE_64
    ensures Reassembled(Cut(c)) == c <==> KeyOffset(c[0]) + DeclaredLength(c) < TWO_TO_THE_64
    ensures KeyOffset(c[0]) + DeclaredLength(c) < TWO_TO_THE_64 ==>
              Cut(c).header + Cut(c).body == c && |Cut(c).wrapped| == DeclaredLength(c)
  {
    var start, length := KeyOffset(c[0]), DeclaredLength(c);
    LittleEndianOfBytes(c[start - 8..start]);
    EightBytes();
    if start + length < TWO_TO_THE_64 {
      CutWithoutWrap(c);
    } else {
      CutWithWrap(c);
    }
  }

  /** What stands before the wrapped key is put back as it was. */
  lemma HeadReassembled(c: Bytes)
    requires Accepted(c).Ok?
    ensures var f := Cut(c);
            var start := KeyOffset(c[0]);
            (if f.version == FORMAT_VERSION_2 then [f.version, f.scheme] else [f.version]) + f.iv +
              LittleEndian(f.length, 8) == c[..start]
  {
    var start := KeyOffset(c[0]);
    LittleEndianOfBytes(c[start - 8..start]);
    SliceThree(c, start - 20, start - 8, start);
  }

  lemma SliceThree(c: Bytes, i: nat, j: nat, k: nat)
    requires i <= j <= k <= |c|
    ensures c[..i] + c[i..j] + c[j..k] == c[..k]
  {}

  lemma CutWithoutWrap(c: Bytes)
    requires Accepted(c).Ok? && KeyOffset(c[0]) + DeclaredLength(c) < TWO_TO_THE_64
    ensures Reassembled(Cut(c)) == c && Cut(c).header + Cut(c).body == c && |Cut(c).wrapped| == DeclaredLength(c)
  {
    var start, length := KeyOffset(c[0]), DeclaredLength(c);
    HeadReassembled(c);
    SliceThree(c, start, start + length, |c|);
    assert c[..|c|] == c && c[start + length..|c|] == c[start + length..];
    assert c[..start + length] + c[start + length..] == c;
  }

  /** When the end wraps around, the wrapped key is taken to the end of the frame, and the body begins before it. */
  lemma CutWithWrap(c: Bytes)
    requires Accepted(c).Ok? && |c| < TWO_TO_THE_64 <= KeyOffset(c[0]) + DeclaredLength(c) &&
             DeclaredLength(c) < TWO_TO_THE_64
    ensures Reassembled(Cut(c)) != c
  {
    var start, length := KeyOffset(c[0]), DeclaredLength(c);
    HeadReassembled(c);
    var f := Cut(c);
    assert |f.wrapped| == |c| - start && |f.body| == |c| - (start + length - TWO_TO_THE_64);
    assert |Reassembled(f)| == start + |f.wrapped| + |f.body|;
  }

  // ---- round trip

  /** The built frame is accepted and is cut into exactly the parts it was built from. */
  lemma BuiltFrameCuts(scheme: Scheme, iv: Bytes, wrapped: Bytes, body: Bytes)
    requires |iv| == GCM_IV_SIZE && KeyOffset(FORMAT_VERSION_2) + |wrapped| + |body| < TWO_TO_THE_64
    ensures var c := Header(scheme, iv, wrapped) + body;
            Accepted(c) == Ok(()) &&
            Cut(c) == Frame(FORMAT_VERSION_2, SchemeByte(scheme), iv, |wrapped|, wrapped, Header(scheme, iv, wrapped),
              body)
  {
    var lengthBytes := LittleEndian(|wrapped|, 8);
    EightBytes();
    LittleEndianRoundTrip(|wrapped|, 8);
    PartsInPlace([FORMAT_VERSION_2, SchemeByte(scheme)], iv, lengthBytes, wrapped, body);
    CutInPlace(Header(scheme, iv, wrapped) + body, wrapped);
  }

  /** A frame whose declared length is that of its wrapped key. */
  lemma CutInPlace(c: Bytes, wrapped: Bytes)
    requires c != [] && (c[0] == FORMAT_VERSION || c[0] == FORMAT_VERSION_2)
    requires KeyOffset(c[0]) + |wrapped| <= |c| && KeyOffset(c[0]) + |wrapped| < TWO_TO_THE_64
    requires DeclaredLength(c) == |wrapped| && c[KeyOffset(c[0])..KeyOffset(c[0]) + |wrapped|] == wrapped
    ensures var start := KeyOffset(c[0]);
            Accepted(c) == Ok(()) &&
            Cut(c) == Frame(c[0], if c[0] == FORMAT_VERSION_2 then c[1] else 0, c[start - 20..start - 8], |wrapped|,
                            wrapped, c[..start + |wrapped|], c[start + |wrapped|..])
  {}

  lemma PartsInPlace(front: Bytes, iv: Bytes, lengthBytes: Bytes, wrapped: Bytes, body: Bytes)
    requires |front| == 2 && |iv| == GCM_IV_SIZE && |lengthBytes| == 8
    ensures var c := front + iv + lengthBytes + wrapped + body;
            c[0] == front[0] && c[1] == front[1] && c[2..14] == iv && c[14..22] == lengthBytes &&
            c[22..22 + |wrapped|] == wrapped &&
            c[..22 + |wrapped|] == front + iv + lengthBytes + wrapped && c[22 + |wrapped|..] == body
  {}

  /** The bytes of a built frame: version, scheme, nonce, length of the wrapped key with the low byte first, wrapped
      key, body. */
  lemma BuiltFrameLayout(scheme: Scheme, iv: Bytes, wrapped: Bytes, body: Bytes)
    requires |iv| == 12
    ensures var c := Header(scheme, iv, wrapped) + body;
            |c| == 22 + |wrapped| + |body| && c[0] == 2 && c[1] == (if scheme == Ac17 then 0 else 1) &&
            c[2..14] == iv && c[14] == |wrapped| % 256 && c[15] == |wrapped| / 256 % 256 &&
            c[22..22 + |wrapped|] == wrapped && c[22 + |wrapped|..] == body
  {
    var lengthBytes := LittleEndian(|wrapped|, 8);
    PartsInPlace([FORMAT_VERSION_2, SchemeByte(scheme)], iv, lengthBytes, wrapped, body);
    var c := Header(scheme, iv, wrapped) + body;
    assert c[14] == c[14..22][0] && c[15] == c[14..22][1];
    assert lengthBytes == [|wrapped| % 256] + LittleEndian(|wrapped| / 256, 7);
    assert LittleEndian(|wrapped| / 256, 7)[0] == |wrapped| / 256 % 256;
  }

  /** Which bytes are refused before any key is asked, and with which error. */
  lemma RefusedFrames<Key>(lib: Library<Key>, key: Key, c: Bytes)
    ensures c == [] ==> Decrypted(lib, key, c) == Err(CryptoFailed)
    ensures c != [] && c[0] != 1 && c[0] != 2 ==> Decrypted(lib, key, c) == Err(VersionMismatch)
    ensures c != [] && ((c[0] == 1 && |c| < 21) || (c[0] == 2 && |c| < 22)) ==>
              Decrypted(lib, key, c) == Err(CryptoFailed)
    ensures |c| >= 22 && c[0] == 2 && |c| < 22 + FromLittleEndian(c[14..22]) < TWO_TO_THE_64 ==>
              Decrypted(lib, key, c) == Err(CryptoFailed)
    ensures |c| >= 22 && c[0] == 2 && c[1] > 1 && 22 + FromLittleEndian(c[14..22]) <= |c| < TWO_TO_THE_64 ==>
              Decrypted(lib, key, c) == Err(InvalidParam)
  {}

  /** A built frame fails with the error of the key, or with that of the body. */
  lemma FailedFrames<Key>(lib: Library<Key>, key: Key, scheme: Scheme, iv: Bytes, wrapped: Bytes, body: Bytes)
    requires |iv| == 12 && 22 + |wrapped| + |body| < TWO_TO_THE_64
    ensures var c := Header(scheme, iv, wrapped) + body;
            var secret := lib.unwrap(scheme, key, wrapped);
            if secret.Err? then Decrypted(lib, key, c) == Err(secret.error)
            else
              var text := lib.unseal(lib.hash(Encode(Decode(secret.value))), iv, Header(scheme, iv, wrapped), body);
              text.Err? ==> Decrypted(lib, key, c) == text
  {
    BuiltFrameCuts(scheme, iv, wrapped, body);
  }

  /** The plaintext, unless it is empty and allocating no bytes gives no pointer. */
  function Delivered<Key>(lib: Library<Key>, plaintext: Bytes): Result<Bytes> {
    if plaintext == [] && !lib.allocatesNothing then Err(OutOfMemory) else Ok(plaintext)
  }

  /** A frame of the first version, which has no scheme byte, opens under AC17. */
  lemma FirstVersionOpens<Key(!new)>(lib: Library<Key>, key: Key, policy: string, plaintext: Bytes, randomKey: nat,
      iv: Bytes)
    requires WrapLaw(lib) && SealLaw(lib) && |iv| == 12
    requires lib.wrap(Ac17, policy, Encode(randomKey)).Ok? && lib.opens(Ac17, key, policy)
    requires 21 + |lib.wrap(Ac17, policy, Encode(randomKey)).value| < TWO_TO_THE_64
    ensures var wrapped := lib.wrap(Ac17, policy, Encode(randomKey)).value;
            var header := FirstHeader(iv, wrapped);
            Decrypted(lib, key, header + lib.seal(lib.hash(Encode(randomKey)), iv, header, plaintext)) ==
            Delivered(lib, plaintext)
  {
    var secret := Encode(randomKey);
    var wrapped := lib.wrap(Ac17, policy, secret).value;
    var header := FirstHeader(iv, wrapped);
    var body := lib.seal(lib.hash(secret), iv, header, plaintext);
    FirstVersionCuts(iv, wrapped, body);
    MinimalRoundTrip(randomKey);
    assert lib.unwrap(Ac17, key, wrapped) == Ok(secret);
    assert lib.unseal(lib.hash(secret), iv, header, body) == Ok(plaintext);
  }

  function FirstHeader(iv: Bytes, wrapped: Bytes): Bytes {
    [1] + iv + LittleEndian(|wrapped|, 8) + wrapped
  }

  lemma FirstVersionCuts(iv: Bytes, wrapped: Bytes, body: Bytes)
    requires |iv| == 12 && 21 + |wrapped| < TWO_TO_THE_64
    ensures var c := FirstHeader(iv, wrapped) + body;
            Accepted(c) == Ok(()) && Cut(c) == Frame(1, 0, iv, |wrapped|, wrapped, FirstHeader(iv, wrapped), body)
  {
    EightBytes();
    LittleEndianRoundTrip(|wrapped|, 8);
    FirstVersionParts(iv, LittleEndian(|wrapped|, 8), wrapped, body);
    CutInPlace(FirstHeader(iv, wrapped) + body, wrapped);
  }

  lemma FirstVersionParts(iv: Bytes, lengthBytes: Bytes, wrapped: Bytes, body: Bytes)
    requires |iv| == 12 && |lengthBytes| == 8
    ensures var c := [1] + iv + lengthBytes + wrapped + body;
            c[0] == 1 && c[1..13] == iv && c[13..21] == lengthBytes && c[21..21 + |wrapped|] == wrapped &&
            c[..21 + |wrapped|] == [1] + iv + lengthBytes + wrapped && c[21 + |wrapped|..] == body
  {}

  /** Decrypting what was encrypted, with a key that satisfies the policy, gives the plaintext. */
  lemma HybridRoundTrip<Key(!new)>(lib: Library<Key>, key: Key, policy: string, plaintext: Bytes, scheme: Scheme,
      randomKey: nat, iv: Bytes)
    requires WrapLaw(lib) && SealLaw(lib)
    requires |iv| == GCM_IV_SIZE
    requires lib.wrap(scheme, policy, Encode(randomKey)).Ok? && lib.opens(scheme, key, policy)
    requires var wrapped := lib.wrap(scheme, policy, Encode(randomKey)).value;
             var body := lib.seal(lib.hash(Encode(randomKey)), iv, Header(scheme, iv, wrapped), plaintext);
             KeyOffset(FORMAT_VERSION_2) + |wrapped| + |body| < TWO_TO_THE_64
    ensures var wrapped := lib.wrap(scheme, policy, Encode(randomKey)).value;
            var header := Header(scheme, iv, wrapped);
            Decrypted(lib, key, header + lib.seal(lib.hash(Encode(randomKey)), iv, header, plaintext)) ==
            Delivered(lib, plaintext)
  {
    var secret := Encode(randomKey);
    var wrapped := lib.wrap(scheme, policy, secret).value;
    var header := Header(scheme, iv, wrapped);
    var body := lib.seal(lib.hash(secret), iv, header, plaintext);
    BuiltFrameCuts(scheme, iv, wrapped, body);
    MinimalRoundTrip(randomKey);
    assert lib.unwrap(scheme, key, wrapped) == Ok(secret);
    assert lib.unseal(lib.hash(secret), iv, header, body) == Ok(plaintext);
  }

  /** Only what was sealed opens: the idealised authenticity of the AEAD. */
  ghost predicate AuthenticLaw<Key(!new)>(lib: Library<Key>) {
    forall key, iv, aad, body | lib.unseal(key, iv, aad, body).Ok? ::
      body == lib.seal(key, iv, aad, lib.unseal(key, iv, aad, body).value)
  }

  /** Conversely, a version 2 frame that decrypts is a built one: its header is the header of its own parts and
      its body is the seal of the plaintext under that header, so no byte of the frame is free. */
  lemma DecryptedFrameIsBuilt<Key(!new)>(lib: Library<Key>, key: Key, c: Bytes)
    requires AuthenticLaw(lib) && |c| < TWO_TO_THE_64 && c != [] && c[0] == FORMAT_VERSION_2
    requires Decrypted(lib, key, c).Ok? && KeyOffset(c[0]) + DeclaredLength(c) < TWO_TO_THE_64
    ensures var f := Cut(c);
            SchemeOf(f.scheme).Ok? &&
            var secret := lib.unwrap(SchemeOf(f.scheme).value, key, f.wrapped);
            secret.Ok? &&
            var header := Header(SchemeOf(f.scheme).value, f.iv, f.wrapped);
            c == header + lib.seal(lib.hash(Encode(Decode(secret.value))), f.iv, header, Decrypted(lib, key, c).value)
  {
    var f := Cut(c);
    CutLosslessIff(c);
    var scheme := SchemeOf(f.scheme).value;
    assert SchemeByte(scheme) == f.scheme;
    var header := Header(scheme, f.iv, f.wrapped);
    assert f.header + f.body == c == Reassembled(f) == header + f.body;
    assert f.header == header by {
      assert |f.header| == |header|;
      assert c[..|header|] == header;
    }
  }
}
