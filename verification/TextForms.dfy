/** The host tool's text forms: version strings and hexadecimal key IDs, over UTF-8 octets. */
module TextForms {
  import opened Bytes
  import opened Layout
  import opened Results
  import opened Utf8

  const DOT: Byte := 0x2E
  const PLUS: Byte := 0x2B
  const DIGIT_ZERO: Byte := 0x30
  const LOWER_A: Byte := 0x61
  const LOWER_X: Byte := 0x78
  const UPPER_X: Byte := 0x58

  // ---------------------------------------------------------------------------
  // Unsigned integers in text
  // ---------------------------------------------------------------------------

  /** The value of a digit character in the given radix. */
  function DigitValue(c: Byte, radix: nat): Result<nat> {
    var value := if 0x30 <= c <= 0x39 then c - 0x30
                 else if 0x61 <= c <= 0x7A then c - 0x61 + 10
                 else if 0x41 <= c <= 0x5A then c - 0x41 + 10
                 else radix;
    if value < radix then Ok(value) else Err
  }

  /** Folds the digits of `s` into `acc`, failing on the first non-digit or overflow. */
  function FoldDigits(s: Octets, radix: nat, max: nat, acc: nat): (r: Result<nat>)
    requires acc <= max
    ensures r.Ok? ==> r.value <= max
  {
    if s == [] then Ok(acc) else
    var digit :- DigitValue(s[0], radix);
    if acc * radix + digit > max then Err else FoldDigits(s[1..], radix, max, acc * radix + digit)
  }

  /** The standard library's unsigned `from_str_radix`: one leading plus sign is accepted. */
  function FromStrRadix(s: Octets, radix: nat, max: nat): (r: Result<nat>)
    ensures r.Ok? ==> r.value <= max
  {
    if s == [] || s == [PLUS] then Err
    else if s[0] == PLUS then FoldDigits(s[1..], radix, max, 0)
    else FoldDigits(s, radix, max, 0)
  }

  lemma {:induction false} FoldOfConcat(s: Octets, t: Octets, radix: nat, max: nat, acc: nat)
    requires acc <= max
    ensures FoldDigits(s + t, radix, max, acc) ==
              if FoldDigits(s, radix, max, acc).Err? then Err
              else FoldDigits(t, radix, max, FoldDigits(s, radix, max, acc).value)
  {
    if s == [] {
      assert s + t == t;
    } else {
      assert (s + t)[0] == s[0] && (s + t)[1..] == s[1..] + t;
      var digit := DigitValue(s[0], radix);
      if digit.Ok? && acc * radix + digit.value <= max {
        FoldOfConcat(s[1..], t, radix, max, acc * radix + digit.value);
      }
    }
  }

  // ---------------------------------------------------------------------------
  // Versions
  // ---------------------------------------------------------------------------

  /** Decimal without leading zeros. */
  function Decimal(n: nat): (s: Octets)
    ensures s != [] && forall k :: 0 <= k < |s| ==> 0x30 <= s[k] <= 0x39
  {
    if n < 10 then [DIGIT_ZERO + n] else Decimal(n / 10) + [DIGIT_ZERO + n % 10]
  }

  function VersionString(major: U16, minor: U16, patch: U16): Octets {
    Decimal(major) + [DOT] + Decimal(minor) + [DOT] + Decimal(patch)
  }

  /** The pieces between separators, as `str::split` yields them. */
  function Split(s: Octets, separator: Byte): (parts: seq<Octets>)
    ensures parts != []
  {
    if s == [] then [[]]
    else if s[0] == separator then [[]] + Split(s[1..], separator)
    else
      var rest := Split(s[1..], separator);
      [[s[0]] + rest[0]] + rest[1..]
  }

  function ParseSemverPart(parts: seq<Octets>, index: nat): Result<U16> {
    if index >= |parts| then Err
    else if parts[index] == [] then Err
    else
      var value :- FromStrRadix(parts[index], 10, 0xFFFF);
      Ok(value)
  }

  function ParseSemverCore(version: Octets): Result<(U16, U16, U16)> {
    var parts := Split(version, DOT);
    var major :- ParseSemverPart(parts, 0);
    var minor :- ParseSemverPart(parts, 1);
    var patch :- ParseSemverPart(parts, 2);
    if |parts| > 3 then Err else Ok((major, minor, patch))
  }

  lemma {:induction false} SplitAfterPiece(s: Octets, t: Octets, separator: Byte)
    requires separator !in s
    ensures Split(s + [separator] + t, separator) == [s] + Split(t, separator)
  {
    var whole := s + [separator] + t;
    if s == [] {
      assert whole[1..] == t;
    } else {
      assert whole[1..] == s[1..] + [separator] + t;
      SplitAfterPiece(s[1..], t, separator);
      assert [s[0]] + s[1..] == s;
    }
  }

  lemma {:induction false} SplitOfPiece(s: Octets, separator: Byte)
    requires separator !in s
    ensures Split(s, separator) == [s]
  {
    if s != [] {
      SplitOfPiece(s[1..], separator);
      assert [s[0]] + s[1..] == s;
    }
  }

  lemma {:induction false} DecimalReads(n: nat, max: nat)
    requires n <= max
    ensures FoldDigits(Decimal(n), 10, max, 0) == Ok(n)
  {
    if n >= 10 {
      DecimalReads(n / 10, max);
      FoldOfConcat(Decimal(n / 10), [DIGIT_ZERO + n % 10], 10, max, 0);
    }
  }

  lemma DecimalParses(n: U16)
    ensures FromStrRadix(Decimal(n), 10, 0xFFFF) == Ok(n)
  {
    DecimalReads(n, 0xFFFF);
    assert Decimal(n)[0] != PLUS;
  }

  // ---------------------------------------------------------------------------
  // Which texts are versions
  // ---------------------------------------------------------------------------

  predicate Digits(s: Octets) {
    forall k :: 0 <= k < |s| ==> '0' as int <= s[k] <= '9' as int
  }

  /** The number decimal digits denote. */
  function NumberOf(s: Octets): nat
    requires Digits(s)
  {
    if s == [] then 0 else 10 * NumberOf(s[..|s| - 1]) + (s[|s| - 1] - '0' as int)
  }

  /** At least one digit, of this value, after at most one plus sign. */
  predicate SpellsNumber(s: Octets, n: nat) {
    || (s != [] && Digits(s) && NumberOf(s) == n)
    || (|s| > 1 && s[0] == '+' as int && Digits(s[1..]) && NumberOf(s[1..]) == n)
  }

  lemma DigitExactly(c: Byte)
    ensures DigitValue(c, 10) == if '0' as int <= c <= '9' as int then Ok(c - '0' as int) else Err
  {
  }

  lemma {:induction false} FoldDecimal(s: Octets, max: nat, n: nat)
    ensures FoldDigits(s, 10, max, 0) == Ok(n) <==> Digits(s) && NumberOf(s) == n && n <= max
  {
    if s != [] {
      var front, last := s[..|s| - 1], s[|s| - 1];
      assert s == front + [last];
      FoldOfConcat(front, [last], 10, max, 0);
      DigitExactly(last);
      assert Digits(s) <==> Digits(front) && '0' as int <= last <= '9' as int;
      if Digits(front) {
        FoldDecimal(front, max, NumberOf(front));
      }
      var r := FoldDigits(front, 10, max, 0);
      if r.Ok? {
        FoldDecimal(front, max, r.value);
        assert [last][1..] == [];
      }
    }
  }

  /** Parsing an unsigned decimal succeeds exactly on the texts that spell a number within range. */
  lemma NumberParsesExactly(s: Octets, max: nat, n: nat)
    ensures FromStrRadix(s, 10, max) == Ok(n) <==> SpellsNumber(s, n) && n <= max
  {
    FoldDecimal(s, max, n);
    if s != [] {
      FoldDecimal(s[1..], max, n);
    }
  }

  /** The pieces put back together, with the separator between them. */
  function Join(parts: seq<Octets>, separator: Byte): Octets
    requires parts != []
  {
    if |parts| == 1 then parts[0] else parts[0] + [separator] + Join(parts[1..], separator)
  }

  lemma JoinOfThree(parts: seq<Octets>, separator: Byte)
    requires |parts| == 3
    ensures Join(parts, separator) == parts[0] + [separator] + parts[1] + [separator] + parts[2]
  {
    var rest := parts[1..];
    assert Join(rest[1..], separator) == parts[2];
    assert Join(rest, separator) == parts[1] + [separator] + parts[2];
    var head, tail := parts[0] + [separator], parts[1] + [separator];
    assert head + (tail + parts[2]) == head + tail + parts[2];
    assert head + tail == parts[0] + [separator] + parts[1] + [separator];
  }

  lemma {:induction false} SplitJoins(s: Octets, separator: Byte)
    ensures Join(Split(s, separator), separator) == s
  {
    if s != [] {
      var rest := Split(s[1..], separator);
      SplitJoins(s[1..], separator);
      assert s == [s[0]] + s[1..];
      if s[0] == separator {
        assert Split(s, separator)[1..] == rest;
      } else {
        assert Split(s, separator)[1..] == rest[1..];
      }
    }
  }

  /** `version` is three texts with dots between them, and these are the numbers they spell. */
  ghost predicate SpellsVersion(version: Octets, major: nat, minor: nat, patch: nat) {
    exists s: Octets, t: Octets, u: Octets ::
      && version == s + ['.' as int] + t + ['.' as int] + u
      && SpellsNumber(s, major) && SpellsNumber(t, minor) && SpellsNumber(u, patch)
  }

  lemma NumbersHaveNoDots(s: Octets, n: nat)
    requires SpellsNumber(s, n)
    ensures '.' as int !in s
  {
    assert forall k :: 1 <= k < |s| ==> s[k] == s[1..][k - 1];
  }

  /** Parsing a version succeeds exactly on three dotted numbers of 16 bits, and gives those numbers. */
  lemma VersionParsesExactly(version: Octets, major: U16, minor: U16, patch: U16)
    ensures ParseSemverCore(version) == Ok((major, minor, patch)) <==> SpellsVersion(version, major, minor, patch)
  {
    hide SpellsNumber, FromStrRadix;
    var parts := Split(version, DOT);
    if |parts| == 3 {
      SplitJoins(version, DOT);
      JoinOfThree(parts, DOT);
      NumberParsesExactly(parts[0], 0xFFFF, major);
      NumberParsesExactly(parts[1], 0xFFFF, minor);
      NumberParsesExactly(parts[2], 0xFFFF, patch);
      EmptySpellsNothing(major);
      EmptySpellsNothing(minor);
      EmptySpellsNothing(patch);
    }
    if s: Octets, t: Octets, u: Octets :|
      && version == s + ['.' as int] + t + ['.' as int] + u
      && SpellsNumber(s, major) && SpellsNumber(t, minor) && SpellsNumber(u, patch)
    {
      ThreePieces(s, t, u, major, minor, patch);
      assert parts == [s, t, u];
    }
  }

  lemma EmptySpellsNothing(n: nat)
    ensures !SpellsNumber([], n)
  {
  }

  lemma ThreePieces(s: Octets, t: Octets, u: Octets, major: nat, minor: nat, patch: nat)
    requires SpellsNumber(s, major) && SpellsNumber(t, minor) && SpellsNumber(u, patch)
    ensures Split(s + ['.' as int] + t + ['.' as int] + u, DOT) == [s, t, u]
  {
    hide SpellsNumber;
    NumbersHaveNoDots(s, major);
    NumbersHaveNoDots(t, minor);
    NumbersHaveNoDots(u, patch);
    var tail := t + [DOT] + u;
    assert s + [DOT] + t + [DOT] + u == s + [DOT] + tail;
    SplitAfterPiece(s, tail, DOT);
    SplitAfterPiece(t, u, DOT);
    SplitOfPiece(u, DOT);
  }

  /** A printed decimal is digits, has the value printed, and starts with zero only if it is "0". */
  lemma {:induction false} DecimalIsCanonical(n: nat)
    ensures Digits(Decimal(n)) && NumberOf(Decimal(n)) == n
    ensures Decimal(n)[0] == '0' as int <==> n == 0
    ensures |Decimal(n)| == 1 <==> n < 10
  {
    if n >= 10 {
      DecimalIsCanonical(n / 10);
      assert Decimal(n)[..|Decimal(n)| - 1] == Decimal(n / 10);
    }
  }

  /** Printing a version and parsing it gives the three components back. */
  lemma VersionRoundTrip(major: U16, minor: U16, patch: U16)
    ensures ParseSemverCore(VersionString(major, minor, patch)) == Ok((major, minor, patch))
  {
    var tail := Decimal(minor) + [DOT] + Decimal(patch);
    assert VersionString(major, minor, patch) == Decimal(major) + [DOT] + tail;
    SplitAfterPiece(Decimal(major), tail, DOT);
    SplitAfterPiece(Decimal(minor), Decimal(patch), DOT);
    SplitOfPiece(Decimal(patch), DOT);
    assert Split(VersionString(major, minor, patch), DOT) == [Decimal(major), Decimal(minor), Decimal(patch)];
    DecimalParses(major);
    DecimalParses(minor);
    DecimalParses(patch);
  }

  // ---------------------------------------------------------------------------
  // Key IDs
  // ---------------------------------------------------------------------------

  /** One lower-case hexadecimal digit. */
  function HexDigit(d: nat): Byte
    requires d < 16
  {
    if d < 10 then DIGIT_ZERO + d else LOWER_A + d - 10
  }

  /** `{byte:02x}` for every octet in turn. */
  function HexOf(bytes: Octets): (s: Octets)
    ensures |s| == 2 * |bytes| && Ascii(s)
  {
    if bytes == [] then []
    else
      var last := bytes[|bytes| - 1];
      HexOf(bytes[..|bytes| - 1]) + [HexDigit(last / 16), HexDigit(last % 16)]
  }

  method KeyIdHex(keyId: KeyId) returns (encoded: Octets)
    ensures encoded == HexOf(keyId)
  {
    encoded := [];
    for index := 0 to 8
      invariant encoded == HexOf(keyId[..index])
    {
      assert keyId[..index + 1][..index] == keyId[..index];
      encoded := encoded + [HexDigit(keyId[index] / 16), HexDigit(keyId[index] % 16)];
    }
    assert keyId[..8] == keyId;
  }

  /** Slicing a string inside a character panics. */
  datatype HexOutcome = Parsed(keyId: KeyId) | Rejected | Panicked

  predicate CharBoundary(s: Octets, index: nat)
    requires index <= |s|
  {
    index == |s| || !Continuation(s[index])
  }

  function StripHexPrefix(s: Octets): Octets {
    if [DIGIT_ZERO, LOWER_X] <= s then s[2..]
    else if [DIGIT_ZERO, UPPER_X] <= s then s[2..]
    else s
  }

  /** The octet written at `index`, or why there is none. */
  function HexPair(value: Octets, index: nat): (r: Result<Result<nat>>)
    requires 2 * index + 2 <= |value|
    ensures r.Ok? && r.value.Ok? ==> r.value.value <= 0xFF
  {
    if CharBoundary(value, 2 * index) && CharBoundary(value, 2 * index + 2)
    then Ok(FromStrRadix(value[2 * index..2 * index + 2], 16, 0xFF))
    else Err
  }

  /** What the parse of the remaining pairs gives, when `done` holds the octets already parsed. */
  function ParsePairs(value: Octets, done: Octets): HexOutcome
    requires |value| == 16 && |done| <= 8
    decreases 8 - |done|
  {
    if |done| == 8 then Parsed(done)
    else
      match HexPair(value, |done|)
      case Err => Panicked
      case Ok(Err) => Rejected
      case Ok(Ok(octet)) => ParsePairs(value, done + [octet])
  }

  function ParsedKeyId(encoded: Octets): HexOutcome {
    var value := StripHexPrefix(encoded);
    if |value| != 16 then Rejected else ParsePairs(value, [])
  }

  method ParseKeyIdHex(encoded: Text) returns (outcome: HexOutcome)
    ensures outcome == ParsedKeyId(encoded)
  {
    hide FromStrRadix, StripHexPrefix, CharBoundary;
    var value := StripHexPrefix(encoded);
    if |value| != 16 {
      return Rejected;
    }
    var keyId := new Byte[8](_ => 0);
    for index := 0 to 8
      invariant ParsePairs(value, []) == ParsePairs(value, keyId[..index])
    {
      var start := index * 2;
      var end := start + 2;
      if !CharBoundary(value, start) || !CharBoundary(value, end) {
        return Panicked;
      }
      var octet := FromStrRadix(value[start..end], 16, 0xFF);
      if octet.Err? {
        return Rejected;
      }
      ghost var done := keyId[..index];
      keyId[index] := octet.value;
      assert keyId[..index + 1] == done + [octet.value];
    }
    return Parsed(keyId[..]);
  }

  lemma {:induction false} HexAt(bytes: Octets, i: nat)
    requires i < |bytes|
    ensures HexOf(bytes)[2 * i] == HexDigit(bytes[i] / 16) && HexOf(bytes)[2 * i + 1] == HexDigit(bytes[i] % 16)
    decreases |bytes|
  {
    if i < |bytes| - 1 {
      HexAt(bytes[..|bytes| - 1], i);
    }
  }

  /** Two printed digits read back as the octet. */
  lemma HexDigitsRead(b: Byte)
    ensures FromStrRadix([HexDigit(b / 16), HexDigit(b % 16)], 16, 0xFF) == Ok(b)
  {
    var s := [HexDigit(b / 16), HexDigit(b % 16)];
    assert DigitValue(s[0], 16) == Ok(b / 16) && DigitValue(s[1], 16) == Ok(b % 16);
    assert s[1..] == [s[1]] && s[1..][1..] == [];
    assert FoldDigits(s[1..], 16, 0xFF, b / 16) == Ok(b);
  }

  lemma {:induction false} HexPairsRead(keyId: KeyId, n: nat)
    requires n <= 8
    ensures ParsePairs(HexOf(keyId), keyId[..n]) == Parsed(keyId)
    decreases 8 - n
  {
    if n == 8 {
      assert keyId[..8] == keyId;
    } else {
      var value := HexOf(keyId);
      HexAt(keyId, n);
      assert value[2 * n..2 * n + 2] == [HexDigit(keyId[n] / 16), HexDigit(keyId[n] % 16)];
      HexDigitsRead(keyId[n]);
      assert keyId[..n + 1] == keyId[..n] + [keyId[n]];
      HexPairsRead(keyId, n + 1);
    }
  }

  /** Parsing a printed key ID gives it back, bare or with either prefix. */
  lemma KeyIdRoundTrip(keyId: KeyId)
    ensures ParsedKeyId(HexOf(keyId)) == Parsed(keyId)
    ensures ParsedKeyId([DIGIT_ZERO, LOWER_X] + HexOf(keyId)) == Parsed(keyId)
    ensures ParsedKeyId([DIGIT_ZERO, UPPER_X] + HexOf(keyId)) == Parsed(keyId)
  {
    var value := HexOf(keyId);
    HexPairsRead(keyId, 0);
    assert keyId[..0] == [];
    HexAt(keyId, 0);
    assert value[1] !in {LOWER_X, UPPER_X};
    assert StripHexPrefix(value) == value;
    assert ([DIGIT_ZERO, LOWER_X] + value)[2..] == value;
    assert ([DIGIT_ZERO, UPPER_X] + value)[2..] == value;
  }

  /** `c` is the hexadecimal digit of value `v`, in either case. */
  predicate HexChar(c: Byte, v: nat) {
    v < 16 && (c == "0123456789abcdef"[v] as int || c == "0123456789ABCDEF"[v] as int)
  }

  lemma HexCharExactly(c: Byte, v: nat)
    ensures HexChar(c, v) <==> DigitValue(c, 16) == Ok(v)
  {
    if v < 16 {
      assert v == 0 || v == 1 || v == 2 || v == 3 || v == 4 || v == 5 || v == 6 || v == 7 || v == 8 || v == 9
             || v == 10 || v == 11 || v == 12 || v == 13 || v == 14 || v == 15;
    }
  }

  /** `c` and `d` spell `octet`: two hexadecimal digits, high before low, or a plus sign and one digit. */
  predicate SpellsOctet(c: Byte, d: Byte, octet: nat) {
    (HexChar(c, octet / 16) && HexChar(d, octet % 16)) || (c == '+' as int && HexChar(d, octet))
  }

  /** What two characters parse to, and that neither of them lies inside a longer character. */
  lemma PairSpells(c: Byte, d: Byte)
    ensures var r := FromStrRadix([c, d], 16, 0xFF);
            && (r.Ok? ==> SpellsOctet(c, d, r.value))
            && forall octet: nat :: SpellsOctet(c, d, octet) ==> r == Ok(octet) && !Continuation(c) && !Continuation(d)
  {
    hide HexChar;
    var s := [c, d];
    assert s[1..] == [d] && s[1..][1..] == [] && s != [PLUS];
    assert FoldDigits([d], 16, 0xFF, 0) == if DigitValue(d, 16).Ok? then DigitValue(d, 16) else Err;
    if DigitValue(c, 16).Ok? {
      var high := DigitValue(c, 16).value;
      assert FoldDigits([d], 16, 0xFF, high)
             == if DigitValue(d, 16).Ok? then Ok(16 * high + DigitValue(d, 16).value) else Err;
    }
    forall v: nat ensures HexChar(c, v) <==> DigitValue(c, 16) == Ok(v) {
      HexCharExactly(c, v);
    }
    forall v: nat ensures HexChar(d, v) <==> DigitValue(d, 16) == Ok(v) {
      HexCharExactly(d, v);
    }
  }

  /** The first `n` pairs of `value` spell the first `n` octets of `octets`. */
  predicate Spells(value: Octets, octets: Octets, n: nat)
    requires 2 * n <= |value| && n <= |octets|
  {
    forall i :: 0 <= i < n ==> SpellsOctet(value[2 * i], value[2 * i + 1], octets[i])
  }

  /** Where the pairs spell `keyId`, each parses to its octet, and none of its edges is inside a character. */
  lemma SpelledPairParses(value: Octets, keyId: KeyId, n: nat)
    requires |value| == 16 && n < 8 && Spells(value, keyId, 8)
    ensures HexPair(value, n) == Ok(Ok(keyId[n]))
  {
    hide FromStrRadix, SpellsOctet, Continuation;
    assert SpellsOctet(value[2 * n], value[2 * n + 1], keyId[n]);
    PairSpells(value[2 * n], value[2 * n + 1]);
    assert value[2 * n..2 * n + 2] == [value[2 * n], value[2 * n + 1]];
    if n < 7 {
      var m := n + 1;
      assert SpellsOctet(value[2 * m], value[2 * m + 1], keyId[m]);
      PairSpells(value[2 * m], value[2 * m + 1]);
    }
  }

  /** A pair that parses spells what it parses to. */
  lemma ParsedPairSpells(value: Octets, n: nat)
    requires |value| == 16 && n < 8 && HexPair(value, n).Ok? && HexPair(value, n).value.Ok?
    ensures SpellsOctet(value[2 * n], value[2 * n + 1], HexPair(value, n).value.value)
  {
    hide FromStrRadix, SpellsOctet, Continuation;
    PairSpells(value[2 * n], value[2 * n + 1]);
    assert value[2 * n..2 * n + 2] == [value[2 * n], value[2 * n + 1]];
  }

  lemma {:induction false} PairsParse(value: Octets, done: Octets, keyId: KeyId)
    requires |value| == 16 && |done| <= 8 && Spells(value, done, |done|)
    ensures ParsePairs(value, done) == Parsed(keyId) <==> done == keyId[..|done|] && Spells(value, keyId, 8)
    decreases 8 - |done|
  {
    hide HexPair, SpellsOctet;
    var n := |done|;
    if n == 8 {
      assert keyId[..8] == keyId;
    } else {
      if Spells(value, keyId, 8) {
        SpelledPairParses(value, keyId, n);
      }
      if HexPair(value, n).Ok? && HexPair(value, n).value.Ok? {
        var next := done + [HexPair(value, n).value.value];
        ParsedPairSpells(value, n);
        PairsParse(value, next, keyId);
        assert keyId[..n + 1] == keyId[..n] + [keyId[n]];
        assert next == keyId[..n + 1] ==> done == keyId[..n] by {
          assert next[..n] == done && keyId[..n + 1][..n] == keyId[..n];
        }
      }
    }
  }

  /** `0x` or `0X` comes first. */
  predicate Prefixed(s: Octets) {
    |s| >= 2 && s[0] == '0' as int && (s[1] == 'x' as int || s[1] == 'X' as int)
  }

  lemma PrefixSpellsNothing(s: Octets, keyId: KeyId)
    ensures |s| == 16 && Prefixed(s) ==> !Spells(s, keyId, 8)
  {
    if |s| == 16 && Prefixed(s) {
      assert !SpellsOctet(s[2 * 0], s[2 * 0 + 1], keyId[0]);
    }
  }

  /** Sixteen octets that spell `keyId` pair by pair, or these after a prefix. */
  predicate SpellsKeyId(encoded: Octets, keyId: KeyId) {
    || (|encoded| == 16 && Spells(encoded, keyId, 8))
    || (|encoded| == 18 && Prefixed(encoded) && Spells(encoded[2..], keyId, 8))
  }

  /** A string parses to a key ID exactly when it spells it, with or without a prefix. */
  lemma KeyIdParsesExactly(encoded: Octets, keyId: KeyId)
    ensures ParsedKeyId(encoded) == Parsed(keyId) <==> SpellsKeyId(encoded, keyId)
  {
    hide SpellsOctet;
    PrefixSpellsNothing(encoded, keyId);
    var value := StripHexPrefix(encoded);
    if |value| == 16 {
      PairsParse(value, [], keyId);
    }
  }

  /** All pairs before `n` are hexadecimal. */
  predicate HexBefore(value: Octets, n: nat)
    requires 2 * n <= |value|
  {
    forall j :: 0 <= j < n ==> HexPair(value, j).Ok? && HexPair(value, j).value.Ok?
  }

  lemma {:induction false} PairsPanic(value: Octets, done: Octets)
    requires |value| == 16 && |done| <= 8 && HexBefore(value, |done|)
    ensures ParsePairs(value, done).Panicked? <==>
              exists i :: |done| <= i < 8 && HexBefore(value, i) && HexPair(value, i).Err?
    decreases 8 - |done|
  {
    if |done| < 8 && HexPair(value, |done|).Ok? && HexPair(value, |done|).value.Ok? {
      PairsPanic(value, done + [HexPair(value, |done|).value.value]);
    }
  }

  /** Stripping the prefix leaves whole characters. */
  lemma StrippedIsText(encoded: Text)
    ensures ValidUtf8(StripHexPrefix(encoded))
    ensures StripHexPrefix(encoded) != [] ==> !Continuation(StripHexPrefix(encoded)[0])
  {
    if StripHexPrefix(encoded) != encoded {
      assert CharLength(encoded) == 1 && ValidUtf8(encoded[1..]);
      assert CharLength(encoded[1..]) == 1 && ValidUtf8(encoded[1..][1..]);
      assert encoded[1..][1..] == encoded[2..];
    }
  }

  lemma PanicsAtFirst(encoded: Text)
    ensures ParsedKeyId(encoded).Panicked? <==>
              var value := StripHexPrefix(encoded);
              |value| == 16 && exists i :: 0 <= i < 7 && HexBefore(value, i) && Continuation(value[2 * i + 2])
  {
    var value := StripHexPrefix(encoded);
    StrippedIsText(encoded);
    if |value| == 16 {
      PairsPanic(value, []);
      forall i | 0 <= i < 8 && HexBefore(value, i)
        ensures HexPair(value, i).Err? <==> i < 7 && Continuation(value[2 * i + 2])
      {
        assert i == 0 || HexPair(value, i - 1).Ok?;
      }
    }
  }

  /** After pairs that spell octets, a character runs on past the end of a pair. */
  ghost predicate Straddles(value: Octets)
    requires |value| == 16
  {
    exists i, octets: Octets ::
      0 <= i < 7 && |octets| == i && Spells(value, octets, i) && Continuation(value[2 * i + 2])
  }

  lemma {:induction false} StraddlesEarliest(value: Octets, i: nat, octets: Octets)
    requires |value| == 16 && i < 7 && i <= |octets| && Spells(value, octets, i) && Continuation(value[2 * i + 2])
    requires !Continuation(value[0])
    ensures exists j :: 0 <= j < 7 && HexBefore(value, j) && Continuation(value[2 * j + 2])
    decreases i
  {
    hide SpellsOctet, FromStrRadix, Continuation;
    if !HexBefore(value, i) {
      var j :| 0 <= j < i && !(HexPair(value, j).Ok? && HexPair(value, j).value.Ok?);
      PairSpells(value[2 * j], value[2 * j + 1]);
      assert value[2 * j..2 * j + 2] == [value[2 * j], value[2 * j + 1]];
      StraddlesEarliest(value, j, octets);
    }
  }

  lemma HexBeforeSpells(value: Octets, i: nat)
    requires |value| == 16 && i < 8 && HexBefore(value, i)
    ensures exists octets: Octets :: |octets| == i && Spells(value, octets, i)
  {
    hide SpellsOctet, FromStrRadix;
    var octets: Octets := seq(i, j requires 0 <= j < i => HexPair(value, j).value.value);
    forall j | 0 <= j < i ensures SpellsOctet(value[2 * j], value[2 * j + 1], octets[j]) {
      PairSpells(value[2 * j], value[2 * j + 1]);
      assert value[2 * j..2 * j + 2] == [value[2 * j], value[2 * j + 1]];
    }
    assert Spells(value, octets, i);
  }

  /** The parse panics exactly when, after pairs that spell octets, a character runs on past its pair's end. */
  lemma KeyIdPanicsExactly(encoded: Text)
    ensures ParsedKeyId(encoded).Panicked? <==>
            || (|encoded| == 16 && !Prefixed(encoded) && Straddles(encoded))
            || (|encoded| == 18 && Prefixed(encoded) && Straddles(encoded[2..]))
  {
    hide ParsedKeyId, HexBefore, Continuation, Straddles;
    var value := StripHexPrefix(encoded);
    PanicsAtFirst(encoded);
    StrippedIsText(encoded);
    if |value| == 16 {
      StraddlesExactly(value);
    }
  }

  lemma StraddlesExactly(value: Octets)
    requires |value| == 16 && !Continuation(value[0])
    ensures Straddles(value) <==> exists i :: 0 <= i < 7 && HexBefore(value, i) && Continuation(value[2 * i + 2])
  {
    hide HexBefore, Spells, Continuation;
    if i :| 0 <= i < 7 && HexBefore(value, i) && Continuation(value[2 * i + 2]) {
      HexBeforeSpells(value, i);
      var octets: Octets :| |octets| == i && Spells(value, octets, i);
    }
    if i, octets: Octets :|
      0 <= i < 7 && |octets| == i && Spells(value, octets, i) && Continuation(value[2 * i + 2])
    {
      StraddlesEarliest(value, i, octets);
    }
  }

  /** Every octet is printed as two lower-case hexadecimal digits, high before low. */
  lemma KeyIdPrintsExactly(bytes: Octets, i: nat)
    requires i < |bytes|
    ensures HexOf(bytes)[2 * i] == "0123456789abcdef"[bytes[i] / 16] as int
    ensures HexOf(bytes)[2 * i + 1] == "0123456789abcdef"[bytes[i] % 16] as int
  {
    HexAt(bytes, i);
    PrintedDigit(bytes[i] / 16);
    PrintedDigit(bytes[i] % 16);
  }

  lemma PrintedDigit(d: nat)
    requires d < 16
    ensures HexDigit(d) == "0123456789abcdef"[d] as int
  {
    assert d == 0 || d == 1 || d == 2 || d == 3 || d == 4 || d == 5 || d == 6 || d == 7 || d == 8 || d == 9
           || d == 10 || d == 11 || d == 12 || d == 13 || d == 14 || d == 15;
  }

  /** A three-octet character followed by thirteen digits has the right length, and panics. */
  lemma KeyIdCanPanic()
    ensures var encoded: Octets := [0xE2, 0x82, 0xAC] + seq(13, _ => DIGIT_ZERO);
            ValidUtf8(encoded) && ParsedKeyId(encoded) == Panicked
  {
    var digits: Octets := seq(13, _ => DIGIT_ZERO);
    var encoded: Octets := [0xE2, 0x82, 0xAC] + digits;
    AsciiIsUtf8(digits);
    assert CharLength(encoded) == 3 && encoded[3..] == digits;
    assert StripHexPrefix(encoded) == encoded;
  }
}
