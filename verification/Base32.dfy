/**
 Base32 between the API, which encodes TOTP secrets, and the harness, which decodes them.
 Both keep their bit buffer in one 32-bit integer that is never masked; it is modelled as
 the unsigned residue of that integer.
 */
module Base32 {
  import opened Radix

  // ---- Decoding ----

  /**
   The octets of `n` five-bit digits: floor(5n/8) of them, spelling the leading bits of the
   digits' bit string.
   */
  ghost predicate Decodes(ds: seq<nat>, out: seq<nat>) {
    && |out| == 5 * |ds| / 8
    && Digits(out, 256)
    && Num(out, 256) == Num(ds, 32) / Pow2(5 * |ds| % 8)
  }

  const ALPHABET := "ABCDEFGHIJKLMNOPQRSTUVWXYZ234567"

  /** `alphabet.indexOf`. */
  function IndexOf(c: char): int {
    if 'A' <= c <= 'Z' then c as int - 'A' as int
    else if '2' <= c <= '7' then c as int - '2' as int + 26
    else -1
  }

  /** A character's digit is its place in the alphabet, if it has one. */
  lemma DigitIsPlace(c: char)
    ensures IndexOf(c) >= 0 <==> c in ALPHABET
    ensures c in ALPHABET ==> 0 <= IndexOf(c) < |ALPHABET| && ALPHABET[IndexOf(c)] == c
  {
    hide ALPHABET;
    if IndexOf(c) >= 0 {
      LettersAreTheAlphabet(IndexOf(c));
    }
    LettersAreTheAlphabet(0);
    if c in ALPHABET {
      var i :| 0 <= i < |ALPHABET| && ALPHABET[i] == c;
      LettersAreTheAlphabet(i);
    }
  }

  /** `toUpperCase` on ASCII letters. */
  function Upper(c: char): char {
    if 'a' <= c <= 'z' then (c as int - 32) as char else c
  }

  /**
   `toUpperCase` character by character: some others become letters of the alphabet, or several
   of them, so that only what it does to ASCII is laid down.
   */
  type Casing = char -> string

  ghost predicate Ascii(upper: Casing) {
    forall c: char :: c as int < 128 ==> upper(c) == [Upper(c)]
  }

  function Uppered(upper: Casing, s: string): string {
    if s == [] then [] else Uppered(upper, s[..|s| - 1]) + upper(s[|s| - 1])
  }

  /** Everything before the trailing padding. */
  function Unpadded(s: string): string {
    if s != [] && s[|s| - 1] == '=' then Unpadded(s[..|s| - 1]) else s
  }

  /** The digits of the alphabet characters of a text; other characters are skipped. */
  function DigitsOf(s: string): seq<nat> {
    if s == [] then []
    else DigitsOf(s[..|s| - 1]) + (if IndexOf(s[|s| - 1]) >= 0 then [IndexOf(s[|s| - 1])] else [])
  }

  lemma {:induction false} DigitsOfAreDigits(s: string)
    ensures Digits(DigitsOf(s), 32)
  {
    if s != [] {
      DigitsOfAreDigits(s[..|s| - 1]);
    }
  }

  lemma {:induction false} PaddingHasNoDigits(s: string)
    ensures DigitsOf(Unpadded(s)) == DigitsOf(s)
  {
    if s != [] && s[|s| - 1] == '=' {
      PaddingHasNoDigits(s[..|s| - 1]);
    }
  }

  /** The buffer holds the bits that are not written yet, below the octets that are. */
  ghost predicate Pending(ds: seq<nat>, out: seq<nat>, bits: nat, value: nat) {
    && 5 * |ds| == 8 * |out| + bits && Digits(out, 256) && value == Num(ds, 32) % WORD
    && Num(ds, 32) == Num(out, 256) * Pow2(bits) + Num(ds, 32) % Pow2(bits)
  }

  lemma NothingPending()
    ensures Pending([], [], 0, 0)
  {
  }

  /** Fewer than eight bits are dropped at the end. */
  lemma PendingDecodes(ds: seq<nat>, out: seq<nat>, bits: nat, value: nat)
    requires Pending(ds, out, bits, value) && bits < 8
    ensures Decodes(ds, out)
  {
    DecodedNumber(Num(ds, 32), Num(out, 256), Pow2(bits));
  }

  /** The buffer takes a digit in. */
  lemma PendingDigit(ds: seq<nat>, out: seq<nat>, bits: nat, value: nat, idx: nat)
    requires Pending(ds, out, bits, value) && idx < 32
    ensures Pending(ds + [idx], out, bits + 5, (value * 32) % WORD + idx)
  {
    SmallPowers();
    NumAppend(ds, idx, 32);
    TakeIn(Num(ds, 32), Num(out, 256), Num(ds, 32) % Pow2(bits), bits, 5, idx);
    ShiftWrapped(Num(ds, 32), 5, idx);
    RestIsModulo(Num(ds, 32) * 32 + idx, Num(out, 256), Num(ds, 32) % Pow2(bits) * 32 + idx, Pow2(bits + 5));
  }

  /** The buffer gives an octet out. */
  lemma PendingOctet(ds: seq<nat>, out: seq<nat>, bits: nat, value: nat)
    requires Pending(ds, out, bits, value) && 8 <= bits <= 32
    ensures Pending(ds, out + [value / Pow2(bits - 8) % 256], bits - 8, value)
  {
    var n := Num(ds, 32);
    var octet := value / Pow2(bits - 8) % 256;
    SmallPowers();
    BufferHolds(n, Num(out, 256), n % Pow2(bits), bits - 8, 8);
    NumAppend(out, octet, 256);
    GiveOut(n, Num(out, 256), n % Pow2(bits), octet, bits - 8, 8);
  }

  /** `base32Decode`, in the harness and in the API. */
  method Base32Decode(upper: Casing, input: string) returns (out: seq<nat>)
    ensures Decodes(DigitsOf(Uppered(upper, input)), out)
  {
    hide Pending, Decodes, Pow2, Num;
    var clean := Unpadded(Uppered(upper, input));
    PaddingHasNoDigits(Uppered(upper, input));
    var bits: nat := 0;
    var value: nat := 0;
    out := [];
    ghost var ds: seq<nat> := [];
    NothingPending();
    var i := 0;
    while i < |clean|
      invariant 0 <= i <= |clean| && ds == DigitsOf(clean[..i])
      invariant bits < 8 && Pending(ds, out, bits, value)
    {
      var idx := IndexOf(clean[i]);
      assert clean[..i + 1][..i] == clean[..i];
      i := i + 1;
      if idx == -1 {
        continue;
      }
      PendingDigit(ds, out, bits, value, idx);
      value := (value * 32) % WORD + idx;
      bits := bits + 5;
      ds := ds + [idx];
      if bits >= 8 {
        PendingOctet(ds, out, bits, value);
        out := out + [value / Pow2(bits - 8) % 256];
        bits := bits - 8;
      }
    }
    assert clean[..|clean|] == clean;
    PendingDecodes(ds, out, bits, value);
  }

  /** Shifting `width` more bits into a buffer of `bits` bits. */
  lemma TakeIn(n: nat, a: nat, r: nat, bits: nat, width: nat, d: nat)
    requires d < Pow2(width)
    requires n == a * Pow2(bits) + r && r < Pow2(bits)
    ensures n * Pow2(width) + d == a * Pow2(bits + width) + (r * Pow2(width) + d)
    ensures r * Pow2(width) + d < Pow2(bits + width)
  {
    PowersMultiply(bits, width);
    Expand(a, Pow2(bits), r, Pow2(width));
    LessTimes(r, Pow2(bits), Pow2(width));
  }

  /** Shifting the wrapped buffer is shifting the whole number, up to the word. */
  lemma ShiftWrapped(n: nat, width: nat, d: nat)
    requires width <= 32 && d < Pow2(width)
    ensures (n % WORD * Pow2(width)) % WORD + d == (n * Pow2(width) + d) % WORD
  {
    hide Pow2;
    var m := WordSplits(width);
    DivideWith(n, m);
    ShiftParts(n, Pow2(width), m, n / m, n % m, n / WORD, n % WORD, d);
  }

  lemma ShiftParts(n: nat, w: nat, m: nat, q: nat, s: nat, t: nat, x: nat, d: nat)
    requires n == q * m + s && s < m && m * w == WORD && d < w
    requires n == t * WORD + x
    ensures (x * w) % WORD + d == (n * w + d) % WORD
  {
    Expand(q, m, s, w);
    LessTimes(s, m, w);
    assert n * w == q * WORD + s * w;
    RestIsModulo(n * w + d, q, s * w + d, WORD);
    Expand(t, WORD, x, w);
    Swap(t, WORD, w);
    Regroup(q, t * w, WORD);
    RestIsModulo(x * w, q - t * w, s * w, WORD);
  }

  /** Moving the top `width` bits of the buffer out leaves the low ones. */
  lemma GiveOut(n: nat, a: nat, r: nat, top: nat, low: nat, width: nat)
    requires n == a * Pow2(low + width) + r && top == r / Pow2(low)
    ensures n == (a * Pow2(width) + top) * Pow2(low) + n % Pow2(low)
  {
    hide Pow2;
    PowersMultiply(low, width);
    MoveOut(n, a, r / Pow2(low), r % Pow2(low), Pow2(low), Pow2(width));
  }

  lemma MoveOut(n: nat, a: nat, top: nat, rest: nat, p: nat, w: nat)
    requires rest < p && n == a * (p * w) + (top * p + rest)
    ensures n == (a * w + top) * p + n % p
  {
    Expand(a, w, top, p);
    Commute(p, w);
    RestIsModulo(n, a * w + top, rest, p);
  }

  lemma DecodedNumber(n: nat, a: nat, p: nat)
    requires p > 0 && n == a * p + n % p
    ensures a == n / p
  {
    RestIsModulo(n, a, n % p, p);
  }

  /** Decoding is a function of the digits: at most one octet sequence fits. */
  lemma DecodingIsUnique(ds: seq<nat>, out: seq<nat>, other: seq<nat>)
    requires Decodes(ds, out) && Decodes(ds, other)
    ensures out == other
  {
    NumInjective(out, other, 256);
  }

  // ---- Encoding ----

  function Letter(d: nat): char
    requires d < 32
  {
    if d < 26 then ('A' as int + d) as char else ('2' as int + (d - 26)) as char
  }

  lemma LettersAreTheAlphabet(d: nat)
    requires d < 32
    ensures |ALPHABET| == 32 && ALPHABET[d] == Letter(d) && IndexOf(Letter(d)) == d
    ensures Upper(Letter(d)) == Letter(d)
  {
  }

  /** The buffer holds `bits` bits that are not written yet, below the digits that are. */
  ghost predicate Buffered(n: nat, ds: seq<nat>, bits: nat, value: nat) {
    value == n % WORD && n == Num(ds, 32) * Pow2(bits) + n % Pow2(bits)
  }

  lemma BufferByte(n: nat, ds: seq<nat>, bits: nat, value: nat, octet: nat)
    requires Buffered(n, ds, bits, value) && octet < 256
    ensures Buffered(n * 256 + octet, ds, bits + 8, (value * 256) % WORD + octet)
  {
    SmallPowers();
    TakeIn(n, Num(ds, 32), n % Pow2(bits), bits, 8, octet);
    ShiftWrapped(n, 8, octet);
    RestIsModulo(n * 256 + octet, Num(ds, 32), n % Pow2(bits) * 256 + octet, Pow2(bits + 8));
  }

  lemma WriteDigit(n: nat, ds: seq<nat>, bits: nat, value: nat) returns (d: nat)
    requires Buffered(n, ds, bits, value) && 5 <= bits <= 32
    ensures d == (value / Pow2(bits - 5)) % 32 && Buffered(n, ds + [d], bits - 5, value)
  {
    SmallPowers();
    BufferHolds(n, Num(ds, 32), n % Pow2(bits), bits - 5, 5);
    d := (value / Pow2(bits - 5)) % 32;
    NumAppend(ds, d, 32);
    GiveOut(n, Num(ds, 32), n % Pow2(bits), d, bits - 5, 5);
  }

  lemma WriteLast(n: nat, ds: seq<nat>, bits: nat, value: nat) returns (d: nat)
    requires Buffered(n, ds, bits, value) && bits <= 5
    ensures d == (value * Pow2(5 - bits)) % WORD % 32 && Num(ds + [d], 32) == n * Pow2(5 - bits)
  {
    LastGroup(n, Num(ds, 32), n % Pow2(bits), bits);
    d := (value * Pow2(5 - bits)) % WORD % 32;
    NumAppend(ds, d, 32);
  }

  /** `base32Encode` of the API: full groups of five bits, the last one padded with zeros. */
  method Base32Encode(bytes: seq<nat>) returns (text: string)
    requires Digits(bytes, 256)
    ensures Spells(text, DigitsOf(text)) && Encodes(bytes, DigitsOf(text))
  {
    hide Spells, Buffered, Pow2, Num;
    var bits: nat := 0;
    var value: nat := 0;
    text := "";
    ghost var ds: seq<nat> := [];
    SpellNothing();
    assert bytes[..0] == [];
    var i := 0;
    while i < |bytes|
      invariant 0 <= i <= |bytes|
      invariant 0 <= bits < 5 && 8 * i == 5 * |ds| + bits
      invariant Spells(text, ds) && Buffered(Num(bytes[..i], 256), ds, bits, value)
    {
      BufferByte(Num(bytes[..i], 256), ds, bits, value, bytes[i]);
      assert bytes[..i + 1] == bytes[..i] + [bytes[i]];
      NumAppend(bytes[..i], bytes[i], 256);
      value := (value * 256) % WORD + bytes[i];
      bits := bits + 8;
      text, ds, bits := WriteGroups(Num(bytes[..i + 1], 256), text, ds, bits, value);
      i := i + 1;
    }
    assert bytes[..|bytes|] == bytes;
    if bits > 0 {
      ghost var written := WriteLast(Num(bytes, 256), ds, bits, value);
      var d := (value * Pow2(5 - bits)) % WORD % 32;
      Spell(text, ds, d);
      text, ds := text + [Letter(d)], ds + [d];
    } else {
      NothingBuffered(Num(bytes, 256), ds, value);
    }
    Spelled(text, ds);
  }

  /** The inner loop: every full group in the buffer. */
  method WriteGroups(ghost n: nat, text: string, ghost ds: seq<nat>, bits: nat, value: nat)
    returns (text': string, ghost ds': seq<nat>, bits': nat)
    requires bits <= 12 && Spells(text, ds) && Buffered(n, ds, bits, value)
    ensures bits' < 5 && 5 * |ds'| + bits' == 5 * |ds| + bits
    ensures Spells(text', ds') && Buffered(n, ds', bits', value)
  {
    hide Spells, Buffered, Pow2, Num;
    text', ds', bits' := text, ds, bits;
    while bits' >= 5
      invariant bits' <= 12 && 5 * |ds'| + bits' == 5 * |ds| + bits
      invariant Spells(text', ds') && Buffered(n, ds', bits', value)
    {
      ghost var written := WriteDigit(n, ds', bits', value);
      var d := (value / Pow2(bits' - 5)) % 32;
      Spell(text', ds', d);
      text', ds' := text' + [Letter(d)], ds' + [d];
      bits' := bits' - 5;
    }
  }

  /** The digits of the bytes' bit string, filled up with zero bits to a whole digit. */
  ghost predicate Encodes(bytes: seq<nat>, ds: seq<nat>) {
    && 8 * |bytes| <= 5 * |ds| < 8 * |bytes| + 5
    && Num(ds, 32) == Num(bytes, 256) * Pow2(5 * |ds| - 8 * |bytes|)
  }

  lemma NothingBuffered(n: nat, ds: seq<nat>, value: nat)
    requires Buffered(n, ds, 0, value)
    ensures Num(ds, 32) == n && Pow2(0) == 1
  {
  }

  lemma SpellNothing()
    ensures Spells("", []) && Buffered(Num([], 256), [], 0, 0)
  {
  }

  lemma LastGroup(n: nat, a: nat, r: nat, bits: nat)
    requires bits <= 5 && n == a * Pow2(bits) + r && r < Pow2(bits)
    ensures (n % WORD * Pow2(5 - bits)) % WORD % 32 == r * Pow2(5 - bits)
    ensures a * 32 + r * Pow2(5 - bits) == n * Pow2(5 - bits)
  {
    var c, t := Pow2(5 - bits), n / WORD;
    SmallPowers();
    PowersMultiply(bits, 5 - bits);
    Expand(a, Pow2(bits), r, c);
    LessTimes(r, Pow2(bits), c);
    Expand(t, WORD, n % WORD, c);
    Swap(t, WORD, c);
    WordIsMultipleOf32(n % WORD * c, a * 32 + r * c, t * c, a, r * c);
  }

  lemma WordIsMultipleOf32(x: nat, y: nat, wraps: int, a: nat, r: nat)
    requires y == wraps * WORD + x && y == a * 32 + r && r < 32
    ensures x % WORD % 32 == r
  {
    var u := x / WORD;
    RestIsModulo(x % WORD, a - (wraps + u) * 0x800_0000, r, 32);
  }

  /** The text is the alphabet spelling of the digits. */
  predicate Spells(text: string, ds: seq<nat>) {
    && |text| == |ds| && Digits(ds, 32) && ds == DigitsOf(text)
    && forall i :: 0 <= i < |text| ==> Upper(text[i]) == text[i] && text[i] != '='
  }

  lemma Spelled(text: string, ds: seq<nat>)
    requires Spells(text, ds)
    ensures ds == DigitsOf(text)
  {
  }

  lemma Spell(text: string, ds: seq<nat>, d: nat)
    requires Spells(text, ds) && d < 32
    ensures Spells(text + [Letter(d)], ds + [d])
  {
    LettersAreTheAlphabet(d);
    assert (text + [Letter(d)])[..|text|] == text;
  }

  // ---- Round trip ----

  /** Whatever spells the encoder's digits decodes to the bytes encoded. */
  lemma DecodingInvertsEncoding(bytes: seq<nat>, ds: seq<nat>, out: seq<nat>)
    requires Digits(bytes, 256) && Encodes(bytes, ds) && Decodes(ds, out)
    ensures out == bytes
  {
    var pad := 5 * |ds| - 8 * |bytes|;
    assert 5 * |ds| % 8 == pad && 5 * |ds| / 8 == |bytes|;
    RestIsModulo(Num(ds, 32), Num(bytes, 256), 0, Pow2(pad));
    NumInjective(out, bytes, 256);
  }

  /** From section 10 of RFC 4648: MZXW6YTB spells the bytes of fooba. */
  lemma KnownVector()
    ensures DigitsOf("MZXW6YTB") == [12, 25, 23, 22, 30, 24, 19, 1]
    ensures Encodes([102, 111, 111, 98, 97], [12, 25, 23, 22, 30, 24, 19, 1])
  {
    var s, ds := "", [];
    s, ds := Spelling(s, ds, 'M', 12);
    s, ds := Spelling(s, ds, 'Z', 25);
    s, ds := Spelling(s, ds, 'X', 23);
    s, ds := Spelling(s, ds, 'W', 22);
    s, ds := Spelling(s, ds, '6', 30);
    s, ds := Spelling(s, ds, 'Y', 24);
    s, ds := Spelling(s, ds, 'T', 19);
    s, ds := Spelling(s, ds, 'B', 1);
    assert s == "MZXW6YTB" && ds == [12, 25, 23, 22, 30, 24, 19, 1];
    NumbersAgree();
  }

  lemma Spelling(s: string, ds: seq<nat>, c: char, d: nat) returns (s': string, ds': seq<nat>)
    requires DigitsOf(s) == ds && IndexOf(c) == d
    ensures s' == s + [c] && ds' == ds + [d] && DigitsOf(s') == ds'
  {
    s', ds' := s + [c], ds + [d];
    assert s'[..|s|] == s;
  }

  lemma NumbersAgree()
    ensures Num([12, 25, 23, 22, 30, 24, 19, 1], 32) == Num([102, 111, 111, 98, 97], 256) && Pow2(0) == 1
  {
    var ds, n := [], 0;
    ds, n := Valued(ds, n, 12, 32);
    ds, n := Valued(ds, n, 25, 32);
    ds, n := Valued(ds, n, 23, 32);
    ds, n := Valued(ds, n, 22, 32);
    ds, n := Valued(ds, n, 30, 32);
    ds, n := Valued(ds, n, 24, 32);
    ds, n := Valued(ds, n, 19, 32);
    ds, n := Valued(ds, n, 1, 32);
    var bytes, m := [], 0;
    bytes, m := Valued(bytes, m, 102, 256);
    bytes, m := Valued(bytes, m, 111, 256);
    bytes, m := Valued(bytes, m, 111, 256);
    bytes, m := Valued(bytes, m, 98, 256);
    bytes, m := Valued(bytes, m, 97, 256);
    assert ds == [12, 25, 23, 22, 30, 24, 19, 1] && bytes == [102, 111, 111, 98, 97];
  }

  lemma Valued(ds: seq<nat>, n: nat, d: nat, radix: nat) returns (ds': seq<nat>, n': nat)
    requires Num(ds, radix) == n
    ensures ds' == ds + [d] && n' == n * radix + d && Num(ds', radix) == n'
  {
    NumAppend(ds, d, radix);
    ds', n' := ds + [d], n * radix + d;
  }

  /** The text with the letters at some places in lower case. */
  function Lowered(text: string, places: set<nat>): (lowered: string)
    ensures |lowered| == |text|
  {
    seq(|text|, i requires 0 <= i < |text| =>
      if i in places && 'A' <= text[i] <= 'Z' then (text[i] as int + 32) as char else text[i])
  }

  /** A secret the API encodes is the secret the harness decodes, in any case, padded or not. */
  method RoundTrip(upper: Casing, bytes: seq<nat>, lowered: set<nat>, padding: nat) returns (out: seq<nat>)
    requires Ascii(upper) && Digits(bytes, 256)
    ensures out == bytes
  {
    var text := Base32Encode(bytes);
    SpelledInAscii(text, DigitsOf(text));
    var written := Lowered(text, lowered) + seq(padding, _ => '=');
    UpperedText(upper, text, lowered, padding);
    out := Base32Decode(upper, written);
    DecodingInvertsEncoding(bytes, DigitsOf(text), out);
  }

  predicate InAlphabet(text: string) {
    forall i :: 0 <= i < |text| ==> 'A' <= text[i] <= 'Z' || '2' <= text[i] <= '7'
  }

  lemma {:induction false} SpelledInAscii(text: string, ds: seq<nat>)
    requires Spells(text, ds)
    ensures InAlphabet(text)
  {
    if text != [] {
      var n := |text| - 1;
      DigitsOfLength(text[..n]);
      SpelledInAscii(text[..n], ds[..n]);
      assert text == text[..n] + [text[n]];
    }
  }

  /** Only characters of the alphabet have a digit. */
  lemma {:induction false} DigitsOfLength(text: string)
    ensures |DigitsOf(text)| <= |text|
  {
    if text != [] {
      DigitsOfLength(text[..|text| - 1]);
    }
  }

  lemma UpperedText(upper: Casing, text: string, lowered: set<nat>, padding: nat)
    requires Ascii(upper) && InAlphabet(text)
    ensures DigitsOf(Uppered(upper, Lowered(text, lowered) + seq(padding, _ => '='))) == DigitsOf(text)
  {
    var written, padded := Lowered(text, lowered) + seq(padding, _ => '='), text + seq(padding, _ => '=');
    forall i | 0 <= i < |written| ensures written[i] as int < 128 && Upper(written[i]) == padded[i] {
    }
    UppersTo(upper, written, padded);
    PaddingAddsNoDigits(text, padding);
  }

  lemma {:induction false} UppersTo(upper: Casing, written: string, text: string)
    requires Ascii(upper) && |written| == |text|
    requires forall i :: 0 <= i < |written| ==> written[i] as int < 128 && Upper(written[i]) == text[i]
    ensures Uppered(upper, written) == text
  {
    if written != [] {
      var n := |written| - 1;
      UppersTo(upper, written[..n], text[..n]);
      assert text == text[..n] + [text[n]];
    }
  }

  lemma {:induction false} PaddingAddsNoDigits(text: string, padding: nat)
    ensures DigitsOf(text + seq(padding, _ => '=')) == DigitsOf(text)
  {
    var padded := text + seq(padding, _ => '=');
    if padding == 0 {
      assert padded == text;
    } else {
      assert padded[..|padded| - 1] == text + seq(padding - 1, _ => '=');
      PaddingAddsNoDigits(text, padding - 1);
    }
  }
}
