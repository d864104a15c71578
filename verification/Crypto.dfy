/** Sealed boxes, which carry a key to one account, and recovery codes. */
module Crypto {
  import opened Record

  const KEY_LEN := 32
  const NONCE_LEN := 24

  // ---- the sealed box ---------------------------------------------------------------------

  /** X25519, HKDF-SHA256 and XChaCha20-Poly1305, as whatever functions they are. */
  datatype Primitives = Primitives(
    publicOf: Text -> Text,
    agree: (Text, Text) -> Text,
    expand: (Text, Text, Text) -> Text,
    encrypt: (Text, Text, Text, Text) -> Text,
    decrypt: (Text, Text, Text, Text) -> Option<Text>)

  /**
   Both sides of an exchange reach one secret (section 6.1 of RFC 7748), keys have their
   lengths, and what was encrypted decrypts under the same key, nonce and associated data.
   */
  ghost predicate Laws(p: Primitives) {
    && (forall a, b :: p.agree(a, p.publicOf(b)) == p.agree(b, p.publicOf(a)))
    && (forall a :: |p.publicOf(a)| == KEY_LEN)
    && (forall s, k, i :: |p.expand(s, k, i)| == KEY_LEN)
    && (forall k, n, d, m :: p.decrypt(k, n, d, p.encrypt(k, n, d, m)) == Some(m))
  }

  datatype Unwrapped = Key(key: Text) | TooShort(len: nat) | DecryptFailed | WrongKeyLength(len: nat)

  const INFO_BOX: Text := seq(|"remotier.box.v1"|, i requires 0 <= i < 15 => "remotier.box.v1"[i] as int % 256)

  /** What this use of the derivation and the cipher is named, in ASCII. */
  lemma InfoSpells()
    ensures |INFO_BOX| == 15 && forall i | 0 <= i < 15 :: INFO_BOX[i] as char == "remotier.box.v1"[i]
  {}

  /** The recipient's key is salted in, beside the sender's throwaway key. */
  function BoxKey(p: Primitives, shared: Text, ephPublic: Text, recipient: Text): Text {
    p.expand(ephPublic + recipient, shared, INFO_BOX)
  }

  /** The key a blob is wrapped under, and the one another recipient would try. */
  function SealingKey(p: Primitives, ephSecret: Text, recipient: Text): Text {
    BoxKey(p, p.agree(ephSecret, recipient), p.publicOf(ephSecret), recipient)
  }

  function OpeningKey(p: Primitives, ephPublic: Text, secret: Text): Text {
    BoxKey(p, p.agree(secret, ephPublic), ephPublic, p.publicOf(secret))
  }

  /** 32 bytes of throwaway public key, 24 of nonce, and then the ciphertext. */
  method WrapFor(p: Primitives, recipient: Text, key: Text, ephSecret: Text, nonce: Text) returns (out: Text)
    ensures out == WrapOf(p, recipient, key, ephSecret, nonce)
    ensures var wrapping := p.expand(p.publicOf(ephSecret) + recipient, p.agree(ephSecret, recipient), INFO_BOX);
            out == p.publicOf(ephSecret) + nonce + p.encrypt(wrapping, nonce, INFO_BOX, key)
  {
    var ephPublic := p.publicOf(ephSecret);
    var wrapping := BoxKey(p, p.agree(ephSecret, recipient), ephPublic, recipient);
    var ciphertext := p.encrypt(wrapping, nonce, INFO_BOX, key);
    out := ephPublic;
    out := out + nonce;
    out := out + ciphertext;
  }

  function WrapOf(p: Primitives, recipient: Text, key: Text, ephSecret: Text, nonce: Text): Text {
    p.publicOf(ephSecret) + nonce + p.encrypt(SealingKey(p, ephSecret, recipient), nonce, INFO_BOX, key)
  }

  function UnwrapWith(p: Primitives, secret: Text, blob: Text): Unwrapped {
    if |blob| < 32 + NONCE_LEN then TooShort(|blob|) else
      var ephPublic, nonce, ciphertext := blob[..32], blob[32..32 + NONCE_LEN], blob[32 + NONCE_LEN..];
      match p.decrypt(OpeningKey(p, ephPublic, secret), nonce, INFO_BOX, ciphertext)
      case None => DecryptFailed
      case Some(plain) => if |plain| == KEY_LEN then Key(plain) else WrongKeyLength(|plain|)
  }

  /** The recipient gets back exactly the key that was wrapped, whatever the throwaway key and nonce. */
  lemma UnwrapInvertsWrap(p: Primitives, secret: Text, key: Text, ephSecret: Text, nonce: Text)
    requires Laws(p) && |key| == KEY_LEN && |nonce| == NONCE_LEN
    ensures UnwrapWith(p, secret, WrapOf(p, p.publicOf(secret), key, ephSecret, nonce)) == Key(key)
  {
    var recipient := p.publicOf(secret);
    var blob := WrapOf(p, recipient, key, ephSecret, nonce);
    var ephPublic := p.publicOf(ephSecret);
    var wrapping := BoxKey(p, p.agree(ephSecret, recipient), ephPublic, recipient);
    assert blob[..32] == ephPublic;
    assert blob[32..56] == nonce;
    assert blob[56..] == p.encrypt(wrapping, nonce, INFO_BOX, key);
    assert p.agree(ephSecret, recipient) == p.agree(secret, ephPublic);
  }

  /** A ciphertext does not open under another key of the same length. */
  ghost predicate Authentic(p: Primitives) {
    forall k, l, n, d, m | |k| == |l| && k != l :: p.decrypt(l, n, d, p.encrypt(k, n, d, m)) == None
  }

  /** What the sealing side and an opening side derive come out the same. */
  ghost predicate Derived(p: Primitives, ephSecret: Text, secret: Text, other: Text) {
    var ephPublic := p.publicOf(ephSecret);
    p.expand(ephPublic + p.publicOf(secret), p.agree(ephSecret, p.publicOf(secret)), INFO_BOX)
    == p.expand(ephPublic + p.publicOf(other), p.agree(other, ephPublic), INFO_BOX)
  }

  /** A blob opens for somebody exactly when they derive the key it was wrapped under. */
  lemma UnwrapsIff(p: Primitives, secret: Text, other: Text, key: Text, ephSecret: Text, nonce: Text)
    requires Laws(p) && Authentic(p) && |key| == KEY_LEN && |nonce| == NONCE_LEN
    ensures UnwrapWith(p, other, WrapOf(p, p.publicOf(secret), key, ephSecret, nonce))
         == if Derived(p, ephSecret, secret, other) then Key(key) else DecryptFailed
  {
    var recipient, ephPublic := p.publicOf(secret), p.publicOf(ephSecret);
    var blob, wrapping := WrapOf(p, recipient, key, ephSecret, nonce), SealingKey(p, ephSecret, recipient);
    assert blob[..32] == ephPublic && blob[32..56] == nonce;
    assert blob[56..] == p.encrypt(wrapping, nonce, INFO_BOX, key);
    assert |wrapping| == KEY_LEN;
  }

  /**
   So whoever has the recipient's public key opens the blob, and anybody else is refused, if and
   only if the two derivations do not collide: the recipient's key is part of the salt.
   */
  lemma OnlyTheRecipientUnwraps(p: Primitives, secret: Text, other: Text, key: Text, ephSecret: Text, nonce: Text)
    requires Laws(p) && Authentic(p) && |key| == KEY_LEN && |nonce| == NONCE_LEN
    ensures var result := UnwrapWith(p, other, WrapOf(p, p.publicOf(secret), key, ephSecret, nonce));
            && (p.publicOf(other) == p.publicOf(secret) ==> result == Key(key))
            && (p.publicOf(other) != p.publicOf(secret) ==>
                  (result == DecryptFailed <==> !Derived(p, ephSecret, secret, other)))
  {
    UnwrapsIff(p, secret, other, key, ephSecret, nonce);
  }

  /** Whatever bytes are given: too few for a key and a nonce, no decryption, not a key, or a key. */
  lemma UnwrapAnswers(p: Primitives, secret: Text, blob: Text)
    ensures |blob| < 56 ==> UnwrapWith(p, secret, blob) == TooShort(|blob|)
    ensures |blob| >= 56 ==>
              var wrapping := p.expand(blob[..32] + p.publicOf(secret), p.agree(secret, blob[..32]), INFO_BOX);
              var opened_ := p.decrypt(wrapping, blob[32..56], INFO_BOX, blob[56..]);
              UnwrapWith(p, secret, blob) == match opened_
                                             case None => DecryptFailed
                                             case Some(m) => if |m| == 32 then Key(m) else WrongKeyLength(|m|)
  {}

  /** Different agreed secrets, of their length, expand to different keys. */
  ghost predicate Separating(p: Primitives) {
    && (forall a, r :: |p.agree(a, r)| == KEY_LEN)
    && (forall salt, s, t, i | |s| == KEY_LEN && |t| == KEY_LEN && s != t ::
          p.expand(salt, s, i) != p.expand(salt, t, i))
  }

  /** The secret exchanged makes the key: alike in all that is public, two wraps differ if it does. */
  lemma WrapsAgreeIff(p: Primitives, recipient: Text, key: Text, one: Text, other: Text, nonce: Text)
    requires Laws(p) && Authentic(p) && Separating(p) && p.publicOf(one) == p.publicOf(other)
    ensures WrapOf(p, recipient, key, one, nonce) == WrapOf(p, recipient, key, other, nonce)
       <==> p.agree(one, recipient) == p.agree(other, recipient)
  {
    var front := p.publicOf(one) + nonce;
    var k, l := SealingKey(p, one, recipient), SealingKey(p, other, recipient);
    var a, b := WrapOf(p, recipient, key, one, nonce), WrapOf(p, recipient, key, other, nonce);
    assert a[|front|..] == p.encrypt(k, nonce, INFO_BOX, key) && b[|front|..] == p.encrypt(l, nonce, INFO_BOX, key);
    if k != l { assert p.decrypt(l, nonce, INFO_BOX, p.encrypt(k, nonce, INFO_BOX, key)) == None; }
    hide Authentic;
  }

  // ---- that the laws can be met ----------------------------------------------------------------

  function BareEncrypt(k: Text, n: Text, d: Text, m: Text): Text { k + m }

  function BareDecrypt(k: Text, n: Text, d: Text, c: Text): Option<Text> {
    if |c| >= |k| && c[..|k|] == k then Some(c[|k|..]) else None
  }

  /** A cipher that shows its key: all that is asked of it here. */
  function Bare(publicOf: Text -> Text, agree: (Text, Text) -> Text, expand: (Text, Text, Text) -> Text): Primitives {
    Primitives(publicOf, agree, expand, BareEncrypt, BareDecrypt)
  }

  lemma BareOpens(k: Text, l: Text, n: Text, d: Text, m: Text)
    ensures BareDecrypt(k, n, d, BareEncrypt(k, n, d, m)) == Some(m)
    ensures |k| == |l| && k != l ==> BareDecrypt(l, n, d, BareEncrypt(k, n, d, m)) == None
  {
    assert (k + m)[..|k|] == k && (k + m)[|k|..] == m;
  }

  lemma BareIsAuthentic(p: Primitives)
    requires p.encrypt == BareEncrypt && p.decrypt == BareDecrypt
    ensures Authentic(p) && forall k, n, d, m :: p.decrypt(k, n, d, p.encrypt(k, n, d, m)) == Some(m)
  {
    forall k, n, d, m ensures p.decrypt(k, n, d, p.encrypt(k, n, d, m)) == Some(m) { BareOpens(k, k, n, d, m); }
    forall k, l, n, d, m | |k| == |l| && k != l ensures p.decrypt(l, n, d, p.encrypt(k, n, d, m)) == None {
      BareOpens(k, l, n, d, m);
    }
  }

  const ZEROS: Text := seq(KEY_LEN, i => 0)
  const ONES: Text := seq(KEY_LEN, i => 1)

  /** Two public keys, and a derivation that hands back the recipient's half of the salt. */
  lemma LawsCanBeMet() returns (p: Primitives, secret: Text, other: Text)
    ensures Laws(p) && Authentic(p)
    ensures p.publicOf(secret) != p.publicOf(other)
    ensures forall eph :: !Derived(p, eph, secret, other)
  {
    secret, other := [], [1];
    p := Bare((s: Text) => if s == [] then ZEROS else ONES, (_, _) => ZEROS,
              (salt: Text, _, _) => if |salt| == 2 * KEY_LEN then salt[KEY_LEN..] else ZEROS);
    BareIsAuthentic(p);
    assert ZEROS[0] != ONES[0];
    forall eph: Text ensures !Derived(p, eph, secret, other) {
      assert (p.publicOf(eph) + ONES)[KEY_LEN..] == ONES && (p.publicOf(eph) + ZEROS)[KEY_LEN..] == ZEROS;
    }
  }

  /**
   Two worlds that differ in the agreed secret alone: every public value of a wrap is the same in
   both, and no one key - so none worked out from those values - opens the blob in both.
   */
  lemma PublicValuesDoNotOpen() returns (p: Primitives, q: Primitives)
    ensures Laws(p) && Authentic(p) && Separating(p) && Laws(q) && Authentic(q) && Separating(q)
    ensures q == p.(agree := q.agree)
    ensures forall eph, recipient, nonce, key, guess | |nonce| == NONCE_LEN && |guess| == KEY_LEN ::
              !(Opens(p, guess, WrapOf(p, recipient, key, eph, nonce), key)
                && Opens(q, guess, WrapOf(q, recipient, key, eph, nonce), key))
  {
    var publicOf := (_: Text) => ZEROS;
    var expand := (_: Text, s: Text, _: Text) => if |s| == KEY_LEN then s else ZEROS;
    p, q := Bare(publicOf, (_, _) => ZEROS, expand), Bare(publicOf, (_, _) => ONES, expand);
    BareIsAuthentic(p);
    BareIsAuthentic(q);
    forall eph, recipient, nonce, key, guess | |nonce| == NONCE_LEN && |guess| == KEY_LEN
      ensures !(Opens(p, guess, WrapOf(p, recipient, key, eph, nonce), key)
                && Opens(q, guess, WrapOf(q, recipient, key, eph, nonce), key))
    {
      var a, b := WrapOf(p, recipient, key, eph, nonce), WrapOf(q, recipient, key, eph, nonce);
      assert a[56..] == ZEROS + key && b[56..] == ONES + key;
      if guess == ZEROS {
        assert ZEROS[0] != ONES[0];
        BareOpens(ONES, guess, nonce, INFO_BOX, key);
      } else {
        BareOpens(ZEROS, guess, nonce, INFO_BOX, key);
      }
    }
  }

  /** Under this key the blob decrypts to `key`. */
  predicate Opens(p: Primitives, guess: Text, blob: Text, key: Text) {
    |blob| >= 56 && p.decrypt(guess, blob[32..56], INFO_BOX, blob[56..]) == Some(key)
  }

  // ---- the recovery code ---------------------------------------------------------------------

  const ALPHABET := "ABCDEFGHJKMNPQRSTVWXYZ0123456789"

  predicate IsSeparator(c: char) { c == '-' || c == ' ' }

  function UpperChar(c: char): char { if 'a' <= c <= 'z' then (c as int - 32) as char else c }

  function Strip(s: string): string {
    if s == [] then [] else
      var earlier := Strip(s[..|s| - 1]);
      if IsSeparator(s[|s| - 1]) then earlier else earlier + [s[|s| - 1]]
  }

  /** Hyphens and spaces go, wherever they stand, and nothing else does. */
  lemma {:induction false} StripJoins(a: string, b: string)
    ensures Strip(a + b) == Strip(a) + Strip(b)
  {
    if b == [] {
      assert a + b == a;
    } else {
      var n := |b| - 1;
      assert (a + b)[..|a + b| - 1] == a + b[..n];
      StripJoins(a, b[..n]);
    }
  }

  lemma StripOne(c: char)
    ensures Strip([c]) == if c == '-' || c == ' ' then [] else [c]
  {}

  function Upper(s: string): (r: string)
    ensures |r| == |s|
  {
    seq(|s|, i requires 0 <= i < |s| => UpperChar(s[i]))
  }

  /** Hyphens and spaces out, ASCII letters to capitals. */
  function Normalise(code: string): string { Upper(Strip(code)) }

  function SymbolsOf(bytes: Text): (r: string)
    ensures |r| == |bytes| && forall i | 0 <= i < |r| :: r[i] in ALPHABET
  {
    seq(|bytes|, i requires 0 <= i < |bytes| => ALPHABET[bytes[i] % |ALPHABET|])
  }

  /** A hyphen before every fifth symbol but the first. */
  function Grouped(symbols: string): string {
    if symbols == [] then [] else
      var n := |symbols| - 1;
      var earlier := Grouped(symbols[..n]);
      if n > 0 && n % 5 == 0 then earlier + ['-', symbols[n]] else earlier + [symbols[n]]
  }

  /** Thirty-two symbols: the capitals but I, L, O and U, in order, and then the digits. */
  lemma AlphabetIs()
    ensures |ALPHABET| == 32
    ensures forall i | 0 <= i < 22 :: 'A' <= ALPHABET[i] <= 'Z' && ALPHABET[i] !in "ILOU"
    ensures forall i | 0 <= i < 21 :: ALPHABET[i] < ALPHABET[i + 1]
    ensures forall i | 22 <= i < 32 :: ALPHABET[i] as int == '0' as int + i - 22
  {}

  lemma {:induction false} LettersAscend(a: string, i: nat, j: nat)
    requires i < j < 22 <= |a| && forall k | 0 <= k < 21 :: a[k] < a[k + 1]
    ensures a[i] < a[j]
  {
    if i + 1 < j { LettersAscend(a, i, j - 1); }
    assert a[j - 1] < a[j - 1 + 1];
  }

  lemma NoSymbolTwice(a: string, i: nat, j: nat)
    requires |a| == 32 && i < 32 && j < 32 && a[i] == a[j]
    requires forall k | 0 <= k < 22 :: 'A' <= a[k]
    requires forall k | 0 <= k < 21 :: a[k] < a[k + 1]
    requires forall k | 22 <= k < 32 :: a[k] as int == '0' as int + k - 22
    ensures i == j
  {
    if i < j < 22 { LettersAscend(a, i, j); }
    if j < i < 22 { LettersAscend(a, j, i); }
  }

  /** Two draws show the same code exactly when they agree in the low five bits of each byte used. */
  lemma CodesAgreeIff(one: Text, other: Text)
    requires |one| == |other|
    ensures Grouped(SymbolsOf(one)) == Grouped(SymbolsOf(other))
       <==> forall i | 0 <= i < |one| :: one[i] % 32 == other[i] % 32
  {
    var a, b := SymbolsOf(one), SymbolsOf(other);
    if Grouped(a) == Grouped(b) {
      AlphabetIs();
      forall c | c in ALPHABET ensures !IsSeparator(c) { AlphabetIsUpperCase(c); }
      StripGrouped(a);
      StripGrouped(b);
      forall i | 0 <= i < |one| ensures one[i] % 32 == other[i] % 32 {
        assert a[i] == b[i];
        NoSymbolTwice(ALPHABET, one[i] % 32, other[i] % 32);
      }
    }
    if forall i | 0 <= i < |one| :: one[i] % 32 == other[i] % 32 {
      assert a == b;
    }
  }

  method GenerateRecoveryCode(bytes: Text) returns (out: string)
    requires |bytes| == KEY_LEN
    ensures out == Grouped(SymbolsOf(bytes[..20]))
    ensures forall i | 0 <= i < 20 :: SymbolsOf(bytes[..20])[i] == ALPHABET[bytes[i] % 32]
    ensures |out| == 23
    ensures var s := SymbolsOf(bytes[..20]);
            out == s[..5] + ['-'] + s[5..10] + ['-'] + s[10..15] + ['-'] + s[15..]
  {
    out := [];
    var symbols := SymbolsOf(bytes[..20]);
    for i := 0 to 20
      invariant out == Grouped(symbols[..i])
    {
      assert symbols[..i + 1][..i] == symbols[..i];
      if i > 0 && i % 5 == 0 {
        out := out + ['-'];
      }
      out := out + [ALPHABET[bytes[i] % |ALPHABET|]];
      assert symbols[i] == ALPHABET[bytes[i] % |ALPHABET|];
    }
    assert symbols[..20] == symbols;
    FourGroups(symbols);
  }

  /** Everything before the symbols of the group that starts at `n`. */
  function UpToGroup(s: string, n: nat): string
    requires n <= |s|
  {
    if n == 0 then "" else Grouped(s[..n]) + ['-']
  }

  lemma GroupStarts(s: string, n: nat)
    requires n < |s| && n % 5 == 0
    ensures Grouped(s[..n + 1]) == UpToGroup(s, n) + [s[n]]
  {
    assert s[..n + 1][..n] == s[..n];
  }

  lemma GroupGoesOn(s: string, n: nat)
    requires n < |s| && n % 5 != 0
    ensures Grouped(s[..n + 1]) == Grouped(s[..n]) + [s[n]]
  {
    assert s[..n + 1][..n] == s[..n];
  }

  lemma OneLonger(front: string, s: string, n: nat, m: nat)
    requires n <= m < |s|
    ensures front + s[n..m + 1] == (front + s[n..m]) + [s[m]]
  {}

  lemma {:induction false} WithinAGroup(s: string, n: nat, end: nat)
    requires n % 5 == 0 && n < end <= n + 5 && end <= |s|
    ensures Grouped(s[..end]) == UpToGroup(s, n) + s[n..end]
  {
    hide *;
    var last := end - 1;
    if last == n {
      GroupStarts(s, n);
      assert s[n..n + 1] == [s[n]];
    } else {
      assert last % 5 != 0;
      WithinAGroup(s, n, last);
      GroupGoesOn(s, last);
      OneLonger(UpToGroup(s, n), s, n, last);
    }
  }

  /** Twenty symbols make four groups. */
  lemma FourGroups(s: string)
    requires |s| == 20
    ensures Grouped(s) == s[..5] + ['-'] + s[5..10] + ['-'] + s[10..15] + ['-'] + s[15..]
  {
    hide Grouped;
    WithinAGroup(s, 0, 5);
    WithinAGroup(s, 5, 10);
    WithinAGroup(s, 10, 15);
    WithinAGroup(s, 15, 20);
    assert s[..20] == s && s[15..20] == s[15..] && s[0..5] == s[..5];
  }

  lemma {:induction false} StripGrouped(symbols: string)
    requires forall i | 0 <= i < |symbols| :: !IsSeparator(symbols[i])
    ensures Strip(Grouped(symbols)) == symbols
  {
    if symbols != [] {
      var n := |symbols| - 1;
      var earlier := Grouped(symbols[..n]);
      StripGrouped(symbols[..n]);
      assert symbols == symbols[..n] + [symbols[n]];
      if n > 0 && n % 5 == 0 {
        var g := earlier + ['-', symbols[n]];
        assert g[..|g| - 1] == earlier + ['-'];
        assert (earlier + ['-'])[..|earlier|] == earlier;
      } else {
        assert (earlier + [symbols[n]])[..|earlier|] == earlier;
      }
    }
  }

  /** `typed` spells the symbols, each in either case. */
  ghost predicate SpelledInAnyCase(typed: string, symbols: string) {
    |typed| == |symbols|
    && forall i | 0 <= i < |typed| ::
         typed[i] == symbols[i] || ('A' <= symbols[i] <= 'Z' && typed[i] as int == symbols[i] as int + 32)
  }

  lemma AlphabetIsUpperCase(c: char)
    requires c in ALPHABET
    ensures 'A' <= c <= 'Z' || '0' <= c <= '9'
  {
    assert forall i | 0 <= i < |ALPHABET| :: 'A' <= ALPHABET[i] <= 'Z' || '0' <= ALPHABET[i] <= '9';
  }

  lemma UpperSpells(typed: string, symbols: string)
    requires forall i | 0 <= i < |symbols| :: 'A' <= symbols[i] <= 'Z' || '0' <= symbols[i] <= '9'
    ensures Upper(typed) == symbols <==> SpelledInAnyCase(typed, symbols)
  {
    if Upper(typed) == symbols {
      forall i | 0 <= i < |typed|
        ensures typed[i] == symbols[i] || ('A' <= symbols[i] <= 'Z' && typed[i] as int == symbols[i] as int + 32)
      {
        assert Upper(typed)[i] == symbols[i];
      }
    }
    if SpelledInAnyCase(typed, symbols) {
      forall i | 0 <= i < |typed| ensures Upper(typed)[i] == symbols[i] {}
    }
  }

  /**
   What is typed is normalised to the string the code shown is normalised to, from which the keys
   are derived, exactly when it spells the code's symbols: hyphens and spaces anywhere and ASCII
   case make no difference, anything else does.
   */
  lemma {:induction false} RetypedCodeIsRecognisedIff(bytes: Text, typed: string)
    ensures var symbols := SymbolsOf(bytes);
            && Normalise(Grouped(symbols)) == symbols
            && (Normalise(typed) == Normalise(Grouped(symbols)) <==> SpelledInAnyCase(Strip(typed), symbols))
  {
    var symbols := SymbolsOf(bytes);
    forall i | 0 <= i < |symbols| ensures ('A' <= symbols[i] <= 'Z' || '0' <= symbols[i] <= '9') {
      AlphabetIsUpperCase(symbols[i]);
    }
    StripGrouped(symbols);
    UpperSpells(symbols, symbols);
    UpperSpells(Strip(typed), symbols);
  }
}
