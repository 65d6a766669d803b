/** The encrypted frame that carries a password to the session service: `src/pam/security.rs`. */
module Frame {
  import opened Prelude
  import opened Words
  import opened Cipher

  datatype PreludeError =
    | PubKeyImportError
    | RSAError
    | AESError
    | InvalidCiphertext
    | WrongNonceSize
    | KeyTooLong
    | PlaintextTooLong
    | InvalidOTP

  /** What `initiate_session` hands to a client. */
  datatype SessionPrelude = SessionPrelude(pubPem: Str, oneTimeToken: Str)

  /** The random values drawn by `encrypt`. */
  datatype Randomness = Randomness(key: Str, nonce: Str, seed: Str)

  /** The outcome of `decrypt`. A slice out of bounds unwinds: `Panicked`. */
  datatype Decrypted =
    | Plain(otp: Str, text: Str)
    | Failed(error: PreludeError)
    | Panicked

  const FIELD := 255
  const HEADER_SIZE := 8

  // ----- padding and interleaving

  /** The first `n` octets of `p`, followed by zeros when there are fewer. */
  function PadTo(p: Str, n: nat): (r: Str)
    ensures |r| == n
  {
    if n == 0 then []
    else if p == [] then [0] + PadTo([], n - 1)
    else [p[0]] + PadTo(p[1..], n - 1)
  }

  /** `string_to_vec_u8`. */
  function Padded(p: Str): (r: Str)
    ensures |r| == FIELD
  {
    PadTo(p, FIELD)
  }

  function Evens(s: Str): (r: Str)
    ensures |r| == (|s| + 1) / 2
  {
    seq((|s| + 1) / 2, i requires 0 <= i < (|s| + 1) / 2 => s[2 * i])
  }

  function Odds(s: Str): (r: Str)
    ensures |r| == |s| / 2
  {
    seq(|s| / 2, i requires 0 <= i < |s| / 2 => s[2 * i + 1])
  }

  /** `otp` repeated to length `n`. */
  function Cyclic(otp: Str, n: nat): (r: Str)
    requires otp != [] || n == 0
    ensures |r| == n
  {
    seq(n, i requires 0 <= i < n => otp[i % |otp|])
  }

  /** `combine`: data octets at even positions, token octets, repeated as needed, at odd ones. */
  method Combine(otp: Str, data: Str) returns (combined: Str)
    requires otp != [] || data == []
    ensures |combined| == 2 * |data|
    ensures Evens(combined) == data && Odds(combined) == Cyclic(otp, |data|)
  {
    combined := [];
    for i := 0 to |data|
      invariant |combined| == 2 * i
      invariant forall j :: 0 <= j < i ==> combined[2 * j] == data[j]
      invariant forall j :: 0 <= j < i ==> combined[2 * j + 1] == otp[j % |otp|]
    {
      combined := combined + [data[i]];
      combined := combined + [otp[i % |otp|]];
    }
  }

  /** `split`: the octets at odd positions, then those at even positions. */
  method Split(combined: Str) returns (otp: Str, data: Str)
    ensures otp == Odds(combined) && data == Evens(combined)
  {
    otp, data := [], [];
    for i := 0 to |combined|
      invariant |data| == (i + 1) / 2 && |otp| == i / 2
      invariant forall j :: 0 <= j < |data| ==> data[j] == combined[2 * j]
      invariant forall j :: 0 <= j < |otp| ==> otp[j] == combined[2 * j + 1]
    {
      if i % 2 == 0 {
        data := data + [combined[i]];
      } else {
        otp := otp + [combined[i]];
      }
    }
  }

  /** A string of even length is fixed by its two halves, so `combine` rebuilds what `split` took apart. */
  lemma HalvesDetermine(c: Str, d: Str)
    requires |c| % 2 == 0 && |d| % 2 == 0
    requires Evens(c) == Evens(d) && Odds(c) == Odds(d)
    ensures c == d
  {
    assert |c| == 2 * |Odds(c)| == |d|;
    forall i | 0 <= i < |c| ensures c[i] == d[i] {
      if i % 2 == 0 {
        assert Evens(c)[i / 2] == c[i] && Evens(d)[i / 2] == d[i];
      } else {
        assert Odds(c)[i / 2] == c[i] && Odds(d)[i / 2] == d[i];
      }
    }
  }

  /** Extending a token to its own length changes nothing. */
  lemma CyclicSameLength(otp: Str)
    ensures Cyclic(otp, |otp|) == otp
  {
  }

  /** `split` undoes `combine`, and `combine` rebuilds every even-length input from its `split`. */
  method InterleaveInverse(otp: Str, data: Str, mixed: Str)
    returns (otp': Str, data': Str, mixed': Str)
    requires otp != [] && |mixed| % 2 == 0
    ensures data' == data && otp' == Cyclic(otp, |data|)
    ensures |otp| == |data| ==> otp' == otp
    ensures mixed' == mixed
  {
    var combined := Combine(otp, data);
    otp', data' := Split(combined);
    CyclicSameLength(otp);
    var odd, even := Split(mixed);
    mixed' := Combine(odd, even);
    CyclicSameLength(odd);
    HalvesDetermine(mixed, mixed');
  }

  /** The zero filter that ends `decrypt`. */
  function NonZero(s: Str): (r: Str)
    ensures 0 !in r
  {
    if s == [] then [] else if s[0] == 0 then NonZero(s[1..]) else [s[0]] + NonZero(s[1..])
  }

  /** Padding keeps the first octets in place and puts zeros behind them. */
  lemma {:induction false} PadToAt(p: Str, n: nat, i: nat)
    requires i < n
    ensures PadTo(p, n)[i] == if i < |p| then p[i] else 0
  {
    if i > 0 {
      PadToAt(if p == [] then [] else p[1..], n - 1, i - 1);
    }
  }

  /** The filter drops zeros one by one, wherever they are, and keeps everything else in order. */
  lemma {:induction false} NonZeroAppend(a: Str, b: Str)
    ensures NonZero(a + b) == NonZero(a) + NonZero(b)
    ensures forall c: Byte :: NonZero([c]) == if c == 0 then [] else [c]
  {
    if a == [] {
      assert a + b == b;
    } else {
      assert (a + b)[1..] == a[1..] + b;
      NonZeroAppend(a[1..], b);
    }
  }

  /** The filter removes the padding. */
  lemma {:induction false} NonZeroOfPadded(p: Str, n: nat)
    requires |p| <= n
    ensures NonZero(PadTo(p, n)) == NonZero(p)
  {
    if p != [] {
      NonZeroOfPadded(p[1..], n - 1);
      assert PadTo(p, n)[1..] == PadTo(p[1..], n - 1);
    } else if n > 0 {
      NonZeroOfPadded([], n - 1);
      assert PadTo(p, n)[1..] == PadTo([], n - 1);
    }
  }

  /** The filter gives a string back exactly when it holds no zero octet. */
  lemma {:induction false} NonZeroIdentity(s: Str)
    ensures NonZero(s) == s <==> 0 !in s
    ensures |NonZero(s)| <= |s|
  {
    if s != [] {
      NonZeroIdentity(s[1..]);
      if s[0] != 0 {
        assert s == [s[0]] + s[1..];
        if NonZero(s) == s {
          assert NonZero(s)[1..] == s[1..];
        }
      }
    }
  }

  // ----- encrypt

  /** The string `combine` builds from a token and a padded password. */
  function Interleaved(otp: Str, data: Str): (r: Str)
    requires |otp| == |data|
    ensures |r| == 2 * |data|
  {
    if data == [] then [] else [data[0], otp[0]] + Interleaved(otp[1..], data[1..])
  }

  lemma {:induction false} InterleavedAt(otp: Str, data: Str, i: nat)
    requires |otp| == |data| && i < |data|
    ensures Interleaved(otp, data)[2 * i] == data[i]
    ensures Interleaved(otp, data)[2 * i + 1] == otp[i]
  {
    if i > 0 {
      InterleavedAt(otp[1..], data[1..], i - 1);
    }
  }

  lemma InterleavedHalves(otp: Str, data: Str)
    requires |otp| == |data|
    ensures Evens(Interleaved(otp, data)) == data && Odds(Interleaved(otp, data)) == otp
  {
    forall i | 0 <= i < |data|
      ensures Interleaved(otp, data)[2 * i] == data[i] && Interleaved(otp, data)[2 * i + 1] == otp[i]
    {
      InterleavedAt(otp, data, i);
    }
  }

  /** The frame that `encrypt` must produce: header, nonce, RSA block, AEAD block. */
  function EncryptFrame(s: Suite, prelude: SessionPrelude, plaintext: Str, rnd: Randomness)
    : (r: Result<Str, PreludeError>)
  {
    if |plaintext| > FIELD then Err(PlaintextTooLong)
    else if |prelude.oneTimeToken| != FIELD then Err(InvalidOTP)
    else match s.importPem(prelude.pubPem)
      case None => Err(PubKeyImportError)
      case Some(pub) =>
        match s.rsaEncrypt(pub, rnd.seed, rnd.key)
        case None => Err(RSAError)
        case Some(block) =>
          if |rnd.nonce| != NONCE_LEN then Err(WrongNonceSize)
          else
            var mixed := Interleaved(prelude.oneTimeToken, Padded(plaintext));
            Ok(Digits(|block|, HEADER_SIZE) + rnd.nonce + block + s.seal(rnd.key, rnd.nonce, mixed))
  }

  /** `SessionPrelude::encrypt`. Its two checks of lengths that `string_to_vec_u8` fixes cannot fail. */
  method Encrypt(s: Suite, prelude: SessionPrelude, plaintext: Str, rnd: Randomness)
    returns (r: Result<Str, PreludeError>)
    requires forall pub :: s.rsaEncrypt(pub, rnd.seed, rnd.key).Some? ==>
      |s.rsaEncrypt(pub, rnd.seed, rnd.key).value| <= VEC_MAX
    ensures r == EncryptFrame(s, prelude, plaintext, rnd)
  {
    if |plaintext| > FIELD {
      return Err(PlaintextTooLong);
    }
    if |prelude.oneTimeToken| != FIELD {
      return Err(InvalidOTP);
    }
    var imported := s.importPem(prelude.pubPem);
    if imported.None? {
      return Err(PubKeyImportError);
    }
    var mixed := Combine(prelude.oneTimeToken, Padded(plaintext));
    CyclicSameLength(prelude.oneTimeToken);
    InterleavedHalves(prelude.oneTimeToken, Padded(plaintext));
    HalvesDetermine(mixed, Interleaved(prelude.oneTimeToken, Padded(plaintext)));
    var encryptedMessage := s.seal(rnd.key, rnd.nonce, mixed);
    var block := s.rsaEncrypt(imported.value, rnd.seed, rnd.key);
    if block.None? {
      return Err(RSAError);
    }
    var header := WriteLength(|block.value|);
    if |rnd.nonce| != NONCE_LEN {
      return Err(WrongNonceSize);
    }
    r := Ok(header + rnd.nonce + block.value + encryptedMessage);
  }

  /** What a built frame holds: the length of the RSA block in eight octets, lowest first; the nonce;
      the key encrypted for the prelude's public key; and the AEAD block over 510 octets in which the
      octets of the password, padded with zeros, alternate with those of the token. */
  lemma FrameBlocks(s: Suite, prelude: SessionPrelude, plaintext: Str, rnd: Randomness) returns (block: Str, mixed: Str)
    requires EncryptFrame(s, prelude, plaintext, rnd).Ok?
    requires forall pub :: s.rsaEncrypt(pub, rnd.seed, rnd.key).Some? ==>
      |s.rsaEncrypt(pub, rnd.seed, rnd.key).value| <= VEC_MAX
    ensures s.importPem(prelude.pubPem).Some?
    ensures s.rsaEncrypt(s.importPem(prelude.pubPem).value, rnd.seed, rnd.key) == Some(block)
    ensures var frame := EncryptFrame(s, prelude, plaintext, rnd).value;
      && |frame| == 20 + |block| + |s.seal(rnd.key, rnd.nonce, mixed)|
      && Weighted(frame[..8]) == |block| && frame[8..20] == rnd.nonce && frame[20..20 + |block|] == block
      && frame[20 + |block|..] == s.seal(rnd.key, rnd.nonce, mixed)
    ensures |mixed| == 510
    ensures forall i :: 0 <= i < 255 ==> mixed[2 * i] == if i < |plaintext| then plaintext[i] else 0
    ensures forall i :: 0 <= i < 255 ==> mixed[2 * i + 1] == prelude.oneTimeToken[i]
  {
    block := s.rsaEncrypt(s.importPem(prelude.pubPem).value, rnd.seed, rnd.key).value;
    mixed := Interleaved(prelude.oneTimeToken, Padded(plaintext));
    forall i | 0 <= i < 255
      ensures mixed[2 * i] == (if i < |plaintext| then plaintext[i] else 0) && mixed[2 * i + 1] == prelude.oneTimeToken[i]
    {
      InterleavedAt(prelude.oneTimeToken, Padded(plaintext), i);
      PadToAt(plaintext, FIELD, i);
    }
    FrameLayout(block, rnd.nonce, s.seal(rnd.key, rnd.nonce, mixed));
  }

  /** Why `encrypt` fails: the password is too long; the token has the wrong length; the key cannot be
      read; the RSA library refuses; the nonce has the wrong size; the first of these. */
  lemma EncryptFailsExactly(s: Suite, prelude: SessionPrelude, plaintext: Str, rnd: Randomness)
    ensures var r, pub := EncryptFrame(s, prelude, plaintext, rnd), s.importPem(prelude.pubPem);
      var sized := |plaintext| <= 255 && |prelude.oneTimeToken| == 255;
      && (r == Err(PlaintextTooLong) <==> |plaintext| > 255)
      && (r == Err(InvalidOTP) <==> |plaintext| <= 255 && |prelude.oneTimeToken| != 255)
      && (r == Err(PubKeyImportError) <==> sized && pub.None?)
      && (r == Err(RSAError) <==> sized && pub.Some? && s.rsaEncrypt(pub.value, rnd.seed, rnd.key).None?)
      && (r == Err(WrongNonceSize) <==>
            sized && pub.Some? && s.rsaEncrypt(pub.value, rnd.seed, rnd.key).Some? && |rnd.nonce| != 12)
      && (r.Err? ==> r.error in {PlaintextTooLong, InvalidOTP, PubKeyImportError, RSAError, WrongNonceSize})
  {
  }

  // ----- decrypt

  /** The length of the RSA block a frame announces. */
  function Announced(c: Str): nat
    requires |c| >= HEADER_SIZE
  {
    Weighted(c[..HEADER_SIZE])
  }

  /** `8 + 12 + len + 510` exceeds a 64-bit `usize`. */
  predicate Overflows(len: nat) {
    HEADER_SIZE + NONCE_LEN + len + 2 * FIELD >= U64
  }

  /** Opening the AEAD block with the key found in the RSA block. */
  function DecryptBlocks(s: Suite, priv: PrivKey, nonce: Str, rsaBlock: Str, message: Str): Decrypted {
    match s.rsaDecrypt(priv, rsaBlock)
    case None => Failed(RSAError)
    case Some(key) =>
      if |key| != KEY_LEN then Failed(KeyTooLong)
      else match s.open(key, nonce, message)
        case None => Failed(AESError)
        case Some(mixed) =>
          if |mixed| != 2 * FIELD then Failed(InvalidCiphertext)
          else Plain(Odds(mixed), NonZero(Evens(mixed)))
  }

  /** What `decrypt` must answer, with the positions of the blocks written as plain sums. */
  function DecryptFrame(s: Suite, priv: PrivKey, c: Str): Decrypted {
    if |c| < HEADER_SIZE then Failed(InvalidCiphertext)
    else
      var len := Announced(c);
      if Overflows(len) then
        if |c| < HEADER_SIZE + NONCE_LEN + len + 2 * FIELD - U64 then Failed(InvalidCiphertext)
        else Panicked
      else if |c| < HEADER_SIZE + NONCE_LEN + len + 2 * FIELD then Failed(InvalidCiphertext)
      else
        DecryptBlocks(s, priv, c[8..20], c[20..20 + len], c[20 + len..])
  }

  /** A Rust slice index `c[lo..hi]`: it panics out of bounds. */
  function Slice(c: Str, lo: nat, hi: nat): (r: Option<Str>) {
    if lo <= hi <= |c| then Some(c[lo..hi]) else None
  }

  /** `SessionPrelude::decrypt`, whose `usize` additions wrap. */
  method Decrypt(s: Suite, priv: PrivKey, c: Str) returns (r: Decrypted)
    requires |c| <= VEC_MAX
    ensures r == DecryptFrame(s, priv, c)
  {
    if |c| < HEADER_SIZE {
      return Failed(InvalidCiphertext);
    }
    var len := ReadLength(c[..HEADER_SIZE]);
    if |c| < (HEADER_SIZE + NONCE_LEN + len + 2 * FIELD) % U64 {
      return Failed(InvalidCiphertext);
    }
    var nonce := Slice(c, HEADER_SIZE, HEADER_SIZE + NONCE_LEN);
    if nonce.None? {
      return Panicked;
    }
    var blockEnd := (HEADER_SIZE + NONCE_LEN + len) % U64;
    var rsaBlock := Slice(c, HEADER_SIZE + NONCE_LEN, blockEnd);
    if rsaBlock.None? {
      return Panicked;
    }
    var message := Slice(c, blockEnd, |c|);
    if message.None? {
      return Panicked;
    }
    assert message.value == c[20 + len..];
    var key := s.rsaDecrypt(priv, rsaBlock.value);
    if key.None? {
      return Failed(RSAError);
    }
    if |key.value| != KEY_LEN {
      return Failed(KeyTooLong);
    }
    var mixed := s.open(key.value, nonce.value, message.value);
    if mixed.None? {
      return Failed(AESError);
    }
    if |mixed.value| != 2 * FIELD {
      return Failed(InvalidCiphertext);
    }
    var otp, data := Split(mixed.value);
    r := Plain(otp, NonZero(data));
  }

  // ----- what the codec is for

  /** `decrypt` runs out of bounds on exactly these frames: the announced length overflows the
      guard's sum and the wrapped sum lets the frame through. Every other frame is sliced in bounds. */
  lemma PanicsExactly(s: Suite, priv: PrivKey, c: Str)
    ensures DecryptFrame(s, priv, c).Panicked? <==>
      |c| >= 8 && Announced(c) >= U64 - 530 && |c| >= Announced(c) - (U64 - 530)
  {
    assert !DecryptFrame(s, priv, c).Panicked? || |c| >= HEADER_SIZE;
  }

  /** The frame is long enough for the blocks it announces, all of which lie in bounds. */
  ghost predicate WellSized(c: Str) {
    |c| >= 8 && |c| >= 8 + 12 + Weighted(c[..8]) + 510 && 8 + 12 + Weighted(c[..8]) + 510 < U64
  }

  /** What `decrypt` answers to a frame whose blocks lie in bounds: the first step that fails decides.
      A success gives the octets at odd positions of the opened block, and those at even positions
      without zeros. Any other frame is invalid, unless it makes `decrypt` panic. */
  lemma DecryptExact(s: Suite, priv: PrivKey, c: Str)
    ensures !WellSized(c) ==> DecryptFrame(s, priv, c) in {Failed(InvalidCiphertext), Panicked}
    ensures WellSized(c) ==>
      var len := Weighted(c[..8]);
      var r, key := DecryptFrame(s, priv, c), s.rsaDecrypt(priv, c[20..20 + len]);
      if key.None? then r == Failed(RSAError)
      else if |key.value| != 32 then r == Failed(KeyTooLong)
      else
        var mixed := s.open(key.value, c[8..20], c[20 + len..]);
        if mixed.None? then r == Failed(AESError)
        else if |mixed.value| != 510 then r == Failed(InvalidCiphertext)
        else
          && r.Plain? && |r.otp| == 255
          && (forall i :: 0 <= i < 255 ==> r.otp[i] == mixed.value[2 * i + 1])
          && r.text == NonZero(seq(255, i requires 0 <= i < 255 => mixed.value[2 * i]))
  {
    if WellSized(c) {
      var len := Announced(c);
      var key := s.rsaDecrypt(priv, c[20..20 + len]);
      if key.Some? {
        var mixed := s.open(key.value, c[8..20], c[20 + len..]);
        if mixed.Some? && |mixed.value| == 510 {
          assert Evens(mixed.value) == seq(255, i requires 0 <= i < 255 => mixed.value[2 * i]);
        }
      }
    }
  }

  /** Eight octets that announce 2^64 - 530 are such a frame, under every key. */
  lemma ShortestPanic(s: Suite, priv: PrivKey)
    ensures DecryptFrame(s, priv, [238, 253, 255, 255, 255, 255, 255, 255]).Panicked?
  {
    var c: Str := [238, 253, 255, 255, 255, 255, 255, 255];
    forall k | 0 <= k < 8 ensures Weighted(c[k..]) == c[k] + 256 * Weighted(c[k + 1..]) {
      assert c[k..][1..] == c[k + 1..];
    }
    assert c[0..] == c == c[..8];
    assert Weighted(c) == U64 - 530;
    PanicsExactly(s, priv, c);
  }

  /** Whatever a frame holds, a successful `decrypt` yields a full-length token and a password of at
      most 255 octets, none of them zero. */
  lemma DecryptedShape(s: Suite, priv: PrivKey, c: Str)
    requires DecryptFrame(s, priv, c).Plain?
    ensures var d := DecryptFrame(s, priv, c); |d.otp| == 255 && |d.text| <= 255 && 0 !in d.text
  {
    var len := Announced(c);
    var key := s.rsaDecrypt(priv, c[20..20 + len]).value;
    NonZeroIdentity(Evens(s.open(key, c[8..20], c[20 + len..]).value));
  }

  /** When `encrypt` succeeds. */
  lemma EncryptSucceedsExactly(s: Suite, prelude: SessionPrelude, plaintext: Str, rnd: Randomness)
    ensures EncryptFrame(s, prelude, plaintext, rnd).Ok? <==>
      && |plaintext| <= 255
      && |prelude.oneTimeToken| == 255
      && |rnd.nonce| == 12
      && s.importPem(prelude.pubPem).Some?
      && s.rsaEncrypt(s.importPem(prelude.pubPem).value, rnd.seed, rnd.key).Some?
  {
  }

  /** Reading a built frame finds every block where it was put. */
  lemma FrameLayout(block: Str, nonce: Str, message: Str)
    requires |block| < U64 && |nonce| == NONCE_LEN
    ensures var c := Digits(|block|, 8) + nonce + block + message;
      && |c| == 20 + |block| + |message|
      && Announced(c) == |block|
      && c[8..20] == nonce && c[20..20 + |block|] == block && c[20 + |block|..] == message
  {
    var c := Digits(|block|, 8) + nonce + block + message;
    assert c[..8] == Digits(|block|, 8);
    HeaderRoundTrip(|block|, c[..8]);
    assert c[8..20] == nonce;
    assert c[20..20 + |block|] == block;
    assert c[20 + |block|..] == message;
  }

  /** Every frame `encrypt` builds decrypts, under the matching private key, to the token it was
      built with and the password without its zero octets. */
  lemma FrameRoundTrip(s: Suite, priv: PrivKey, prelude: SessionPrelude, plaintext: Str, rnd: Randomness)
    requires Lawful(s)
    requires s.importPem(prelude.pubPem) == Some(s.publicOf(priv))
    requires |rnd.key| == KEY_LEN
    requires EncryptFrame(s, prelude, plaintext, rnd).Ok?
    ensures var frame := EncryptFrame(s, prelude, plaintext, rnd).value;
      DecryptFrame(s, priv, frame) == Plain(prelude.oneTimeToken, NonZero(plaintext))
  {
    var mixed := Interleaved(prelude.oneTimeToken, Padded(plaintext));
    assert RsaLaw(s, priv, rnd.seed, rnd.key);
    assert AeadLaw(s, rnd.key, rnd.nonce, mixed);
    var block := s.rsaEncrypt(s.publicOf(priv), rnd.seed, rnd.key).value;
    FrameLayout(block, rnd.nonce, s.seal(rnd.key, rnd.nonce, mixed));
    InterleavedHalves(prelude.oneTimeToken, Padded(plaintext));
    NonZeroOfPadded(plaintext, FIELD);
  }

  /** The service receives the password itself exactly when it holds no zero octet. */
  lemma PasswordSurvivesExactly(s: Suite, priv: PrivKey, prelude: SessionPrelude, plaintext: Str, rnd: Randomness)
    requires Lawful(s)
    requires s.importPem(prelude.pubPem) == Some(s.publicOf(priv))
    requires |rnd.key| == KEY_LEN
    requires EncryptFrame(s, prelude, plaintext, rnd).Ok?
    ensures var frame := EncryptFrame(s, prelude, plaintext, rnd).value;
      DecryptFrame(s, priv, frame) == Plain(prelude.oneTimeToken, plaintext) <==> 0 !in plaintext
  {
    FrameRoundTrip(s, priv, prelude, plaintext, rnd);
    NonZeroIdentity(plaintext);
  }
}
