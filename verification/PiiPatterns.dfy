/** The pattern tables of both tiers and the detector loop that runs them. */
module PiiPatterns {
  import opened Text
  import opened Regex
  import Checksums
  import Decimal

  datatype Validator = NoCheck | LuhnCheck | Octets | UsPhone | Aadhaar | Upi | Bsn | Swift

  /** An entity type is made of capitals and underscores and starts with a capital. */
  predicate IsTypeName(s: string) {
    s != [] && 'A' <= s[0] <= 'Z' && forall k :: 0 <= k < |s| ==> 'A' <= s[k] <= 'Z' || s[k] == '_'
  }

  type TypeName = s: string | IsTypeName(s) witness "A"

  datatype PatternDef = PatternDef(entity: TypeName, re: Re, validate: Validator)

  datatype PatternMatch = PatternMatch(entity: TypeName, start: nat, end: nat, value: string)

  // ---- Entity types ------------------------------------------------------------------------------

  const CREDIT_CARD_TYPE: TypeName := "CREDIT_CARD"
  const BANK_ACCT_TYPE: TypeName := "BANK_ACCT"
  const SSN_TYPE: TypeName := "SSN"
  const IP_TYPE: TypeName := "IP"
  const EMAIL_TYPE: TypeName := "EMAIL"
  const PHONE_TYPE: TypeName := "PHONE"
  const ADDRESS_TYPE: TypeName := "ADDRESS"
  const AADHAAR_TYPE: TypeName := "AADHAAR"
  const PAN_TYPE: TypeName := "PAN"
  const IFSC_TYPE: TypeName := "IFSC"
  const UPI_TYPE: TypeName := "UPI"
  const EMAIL_ADDRESS_TYPE: TypeName := "EMAIL_ADDRESS"
  const US_SSN_TYPE: TypeName := "US_SSN"
  const IP_ADDRESS_TYPE: TypeName := "IP_ADDRESS"
  const PHONE_NUMBER_TYPE: TypeName := "PHONE_NUMBER"
  const AADHAAR_NUMBER_TYPE: TypeName := "AADHAAR_NUMBER"
  const IN_PAN_TYPE: TypeName := "IN_PAN"
  const IN_IFSC_TYPE: TypeName := "IN_IFSC"
  const IN_UPI_ID_TYPE: TypeName := "IN_UPI_ID"
  const DE_STEUER_ID_TYPE: TypeName := "DE_STEUER_ID"
  const FR_NIR_TYPE: TypeName := "FR_NIR"
  const NL_BSN_TYPE: TypeName := "NL_BSN"
  const SWIFT_BIC_TYPE: TypeName := "SWIFT_BIC"
  const IN_PASSPORT_TYPE: TypeName := "IN_PASSPORT"

  // ---- Expression shorthands ---------------------------------------------------------------------

  const D := Set(DigitFrom('0'))
  const UPPER := Set(Upper)
  const LETTER := Or(Lower, Upper)
  const ALNUM := Or(LETTER, DigitFrom('0'))
  const UPPER_OR_DIGIT := Set(Or(Upper, DigitFrom('0')))

  function Digits(n: nat): Re {
    Rep(D, n, n)
  }

  function Lit(c: Plain): Re {
    Set(Ch(c))
  }

  function Opt(re: Re): Re {
    Rep(re, 0, 1)
  }

  /** An optional separator of the given class. */
  function Sep(cls: Cls): Re {
    Opt(Set(cls))
  }

  /** `\b re \b` */
  function Word(re: Re): Re {
    Cat(Bound, Cat(re, Bound))
  }

  // ---- Expressions both tiers use ----------------------------------------------------------------

  const SPACE_OR_DASH := Or(Space, Ch('-'))
  const PHONE_SEP := Or(Space, Or(Ch('-'), Ch('.')))
  const EMAIL_DOMAIN := Or(ALNUM, Or(Ch('.'), Ch('-')))

  const EMAIL_RE :=
    Cat(Many(Set(Or(EMAIL_DOMAIN, Or(Ch('_'), Or(Ch('%'), Ch('+'))))), 1),
    Cat(Lit('@'), Cat(Many(Set(EMAIL_DOMAIN), 1), Cat(Lit('.'), Many(Set(LETTER), 2)))))

  const SSN_RE := Word(Cat(Digits(3), Cat(Lit('-'), Cat(Digits(2), Cat(Lit('-'), Digits(4))))))

  const CARD := Cat(Rep(Cat(D, Sep(Or(Ch(' '), Ch('-')))), 12, 18), D)

  const IP_RE :=
    Word(Cat(Rep(D, 1, 3), Cat(Lit('.'), Cat(Rep(D, 1, 3), Cat(Lit('.'),
         Cat(Rep(D, 1, 3), Cat(Lit('.'), Rep(D, 1, 3))))))))

  const COUNTRY_CODE := Opt(Cat(Opt(Lit('+')), Cat(Lit('1'), Sep(PHONE_SEP))))

  const US_PHONE_RE :=
    Cat(COUNTRY_CODE, Cat(Opt(Lit('(')), Cat(Digits(3), Cat(Opt(Lit(')')), Cat(Sep(PHONE_SEP),
    Cat(Digits(3), Cat(Sep(PHONE_SEP), Cat(Digits(4), Bound))))))))

  const SPACED_TRIPLET := Cat(Digits(4), Cat(Sep(Space), Cat(Digits(4), Cat(Sep(Space), Digits(4)))))

  const DASHED_TRIPLET := Cat(Digits(4), Cat(Sep(SPACE_OR_DASH), Cat(Digits(4), Cat(Sep(SPACE_OR_DASH), Digits(4)))))

  const PAN := Cat(Rep(UPPER, 5, 5), Cat(Digits(4), UPPER))

  const IFSC := Cat(Rep(UPPER, 4, 4), Cat(Lit('0'), Rep(UPPER_OR_DIGIT, 6, 6)))

  const UPI_RE := Word(Cat(Many(Set(Or(ALNUM, Or(Ch('.'), Ch('_')))), 1), Cat(Lit('@'), Many(Set(LETTER), 2))))

  // ---- Tier 1 ------------------------------------------------------------------------------------

  const CAPITALISED := Cat(UPPER, Many(Set(Lower), 1))

  const STREETS: seq<seq<Plain>> :=
    ["Street", "St", "Avenue", "Ave", "Road", "Rd", "Boulevard", "Blvd", "Drive", "Dr", "Lane", "Ln",
     "Way", "Place", "Pl", "Court", "Ct"]

  const GROUPED_CARD :=
    Cat(Digits(4), Cat(Set(SPACE_OR_DASH), Cat(Digits(4), Cat(Set(SPACE_OR_DASH), Cat(Digits(4),
    Cat(Set(SPACE_OR_DASH), Rep(D, 3, 4)))))))

  const INTL_PHONE_RE :=
    Cat(Lit('+'), Cat(Rep(D, 1, 3), Cat(Set(PHONE_SEP),
        Cat(D, Cat(Rep(Set(Or(DigitFrom('0'), PHONE_SEP)), 6, 12), D)))))

  const IN_PHONE := Cat(Set(DigitFrom('6')), Cat(Digits(4), Cat(Sep(SPACE_OR_DASH), Digits(5))))

  const NUMBER_AND_NAME :=
    Cat(Many(D, 1), Cat(Many(Set(Space), 1), Cat(CAPITALISED, Many(Cat(Many(Set(Space), 1), CAPITALISED), 0))))

  const ADDRESS_RE := Cat(NUMBER_AND_NAME, Cat(Many(Set(Space), 1), Cat(OneOf(STREETS), Bound)))

  const TIER1: seq<PatternDef> := [
    PatternDef(CREDIT_CARD_TYPE, Word(GROUPED_CARD), LuhnCheck),
    PatternDef(CREDIT_CARD_TYPE, Word(CARD), LuhnCheck),
    PatternDef(BANK_ACCT_TYPE, Word(Digits(16)), NoCheck),
    PatternDef(SSN_TYPE, SSN_RE, NoCheck),
    PatternDef(IP_TYPE, IP_RE, Octets),
    PatternDef(EMAIL_TYPE, EMAIL_RE, NoCheck),
    PatternDef(PHONE_TYPE, INTL_PHONE_RE, NoCheck),
    PatternDef(PHONE_TYPE, US_PHONE_RE, UsPhone),
    PatternDef(PHONE_TYPE, Word(IN_PHONE), NoCheck),
    PatternDef(ADDRESS_TYPE, ADDRESS_RE, NoCheck),
    PatternDef(AADHAAR_TYPE, Word(DASHED_TRIPLET), Aadhaar),
    PatternDef(PAN_TYPE, Word(PAN), NoCheck),
    PatternDef(IFSC_TYPE, Word(IFSC), NoCheck),
    PatternDef(UPI_TYPE, UPI_RE, Upi)
  ]

  // ---- Tier 2 ------------------------------------------------------------------------------------

  const PLUS_91_RE :=
    Cat(Lit('+'), Cat(Lit('9'), Cat(Lit('1'), Cat(Sep(Space), Cat(Digits(5), Cat(Sep(Space), Cat(Digits(5), Bound)))))))

  const STEUER := Cat(Set(DigitFrom('1')), Digits(10))

  const NIR_HEAD :=
    Cat(Set(Or(Ch('1'), Ch('2'))), Cat(Sep(Space), Cat(Digits(2), Cat(Sep(Space),
        Cat(Digits(2), Cat(Sep(Space), Digits(2)))))))

  const NIR_TAIL := Cat(Sep(Space), Cat(Digits(3), Cat(Sep(Space), Cat(Digits(3), Cat(Sep(Space), Digits(2))))))

  const NIR := Cat(NIR_HEAD, NIR_TAIL)

  const BIC :=
    Cat(Rep(UPPER, 4, 4), Cat(Rep(UPPER_OR_DIGIT, 2, 2),
        Cat(Rep(UPPER_OR_DIGIT, 2, 2), Opt(Rep(UPPER_OR_DIGIT, 3, 3)))))

  const PASSPORT := Cat(UPPER, Digits(7))

  const TIER2: seq<PatternDef> := [
    PatternDef(EMAIL_ADDRESS_TYPE, EMAIL_RE, NoCheck),
    PatternDef(US_SSN_TYPE, SSN_RE, NoCheck),
    PatternDef(CREDIT_CARD_TYPE, Word(CARD), LuhnCheck),
    PatternDef(IP_ADDRESS_TYPE, IP_RE, Octets),
    PatternDef(PHONE_NUMBER_TYPE, US_PHONE_RE, UsPhone),
    PatternDef(AADHAAR_NUMBER_TYPE, Word(SPACED_TRIPLET), Aadhaar),
    PatternDef(IN_PAN_TYPE, Word(PAN), NoCheck),
    PatternDef(IN_IFSC_TYPE, Word(IFSC), NoCheck),
    PatternDef(IN_UPI_ID_TYPE, UPI_RE, Upi),
    PatternDef(PHONE_NUMBER_TYPE, PLUS_91_RE, NoCheck),
    PatternDef(DE_STEUER_ID_TYPE, Word(STEUER), NoCheck),
    PatternDef(FR_NIR_TYPE, Word(NIR), NoCheck),
    PatternDef(NL_BSN_TYPE, Word(Digits(9)), Bsn),
    PatternDef(SWIFT_BIC_TYPE, Word(BIC), Swift),
    PatternDef(IN_PASSPORT_TYPE, Word(PASSPORT), NoCheck)
  ]

  // ---- Facts read off the tables -----------------------------------------------------------------

  /**
   * A match of a table's expression has no bracket and no dollar sign, and there is one of three
   * reasons why it is not inside a token whose number has fewer than ten digits.
   */
  ghost predicate SafeMatch(t: string, i: nat, e: nat) {
    && i < e <= |t|
    && DelimiterFree(t[i..e])
    && (HasForeign(t[i..e]) || Count(t[i..e], IsDigit) >= 10 || WholeWord(t, i, e))
  }

  /** Word boundaries at both ends and no underscore in between. */
  predicate WholeWord(t: string, i: nat, e: nat)
    requires i <= e <= |t|
  {
    IsBoundary(t, i) && IsBoundary(t, e) && '_' !in t[i..e]
  }

  ghost predicate SafeRe(re: Re) {
    forall t, i, e :: 0 <= i <= |t| && e in Ends(re, t, i) ==> SafeMatch(t, i, e)
  }

  lemma {:induction false} SafeByForeign(re: Re)
    requires NonEmpty(re) && NeedsForeign(re)
    ensures SafeRe(re)
  {
    forall t, i, e | 0 <= i <= |t| && e in Ends(re, t, i) ensures SafeMatch(t, i, e) { EndsAreSound(re, t); }
  }

  lemma {:induction false} SafeByDigits(re: Re)
    requires DigitCount(re) >= 10
    ensures SafeRe(re)
  {
    forall t, i, e | 0 <= i <= |t| && e in Ends(re, t, i) ensures SafeMatch(t, i, e) {
      EndsAreSound(re, t);
      assert Count(t[i..e], IsDigit) >= 10 && Count("", IsDigit) == 0;
    }
  }

  lemma {:induction false} SafeByWord(re: Re)
    requires NonEmpty(re) && NoUnderscore(re)
    ensures SafeRe(Word(re))
  {
    forall t, i, e | 0 <= i <= |t| && e in Ends(Word(re), t, i) ensures SafeMatch(t, i, e) {
      EndsAreSound(Word(re), t);
      assert Sound(Analyse(Word(re)), t, i, e);
      var inner := Cat(re, Bound);
      assert NonEmpty(inner) && NoUnderscore(inner) && Closes(inner) && Word(re) == Cat(Bound, inner);
      assert NonEmpty(Word(re)) && NoUnderscore(Word(re)) && Opens(Word(re)) && Closes(Word(re));
    }
  }

  lemma EmailIsSafe()
    ensures SafeRe(EMAIL_RE)
  {
    SafeByForeign(EMAIL_RE);
  }

  lemma SsnIsSafe()
    ensures SafeRe(SSN_RE)
  {
    SafeByForeign(SSN_RE);
  }

  lemma IpIsSafe()
    ensures SafeRe(IP_RE)
  {
    SafeByForeign(IP_RE);
  }

  lemma UpiIsSafe()
    ensures SafeRe(UPI_RE)
  {
    SafeByForeign(UPI_RE);
  }

  lemma IntlPhoneIsSafe()
    ensures SafeRe(INTL_PHONE_RE)
  {
    SafeByForeign(INTL_PHONE_RE);
  }

  lemma AddressIsSafe()
    ensures SafeRe(ADDRESS_RE)
  {
    SafeByForeign(ADDRESS_RE);
  }

  lemma Plus91IsSafe()
    ensures SafeRe(PLUS_91_RE)
  {
    SafeByForeign(PLUS_91_RE);
  }

  lemma UsPhoneIsSafe()
    ensures SafeRe(US_PHONE_RE)
  {
    SafeByDigits(US_PHONE_RE);
  }

  lemma CardIsSafe()
    ensures SafeRe(Word(CARD))
  {
    SafeByWord(CARD);
  }

  lemma PanIsSafe()
    ensures SafeRe(Word(PAN))
  {
    SafeByWord(PAN);
  }

  lemma IfscIsSafe()
    ensures SafeRe(Word(IFSC))
  {
    SafeByWord(IFSC);
  }

  lemma GroupedCardIsSafe()
    ensures SafeRe(Word(GROUPED_CARD))
  {
    SafeByWord(GROUPED_CARD);
  }

  lemma InPhoneIsSafe()
    ensures SafeRe(Word(IN_PHONE))
  {
    SafeByWord(IN_PHONE);
  }

  lemma SteuerIsSafe()
    ensures SafeRe(Word(STEUER))
  {
    SafeByWord(STEUER);
  }

  lemma NirIsSafe()
    ensures SafeRe(Word(NIR))
  {
    SafeByWord(NIR);
  }

  lemma BicIsSafe()
    ensures SafeRe(Word(BIC))
  {
    SafeByWord(BIC);
  }

  lemma SixteenDigitsIsSafe()
    ensures SafeRe(Word(Digits(16)))
  {
    SafeByWord(Digits(16));
  }

  lemma NineDigitsIsSafe()
    ensures SafeRe(Word(Digits(9)))
  {
    SafeByWord(Digits(9));
  }

  lemma PassportIsSafe()
    ensures SafeRe(Word(PASSPORT))
  {
    SafeByWord(PASSPORT);
  }

  lemma TripletsAreSafe()
    ensures SafeRe(Word(SPACED_TRIPLET)) && SafeRe(Word(DASHED_TRIPLET))
  {
    SafeByWord(SPACED_TRIPLET);
    SafeByWord(DASHED_TRIPLET);
  }

  ghost predicate SafeExpressions(table: seq<PatternDef>) {
    forall k :: 0 <= k < |table| ==> SafeRe(table[k].re)
  }

  lemma Tier1IsSafe()
    ensures SafeExpressions(TIER1)
  {
    EmailIsSafe(); SsnIsSafe(); IpIsSafe(); UpiIsSafe(); IntlPhoneIsSafe(); AddressIsSafe(); UsPhoneIsSafe();
    CardIsSafe(); PanIsSafe(); IfscIsSafe(); GroupedCardIsSafe(); InPhoneIsSafe(); SixteenDigitsIsSafe();
    TripletsAreSafe();
  }

  lemma Tier2IsSafe()
    ensures SafeExpressions(TIER2)
  {
    EmailIsSafe(); SsnIsSafe(); IpIsSafe(); UpiIsSafe(); Plus91IsSafe(); UsPhoneIsSafe();
    CardIsSafe(); PanIsSafe(); IfscIsSafe(); SteuerIsSafe(); NirIsSafe();
    BicIsSafe(); NineDigitsIsSafe(); PassportIsSafe();
    TripletsAreSafe();
  }

  // ---- Validators --------------------------------------------------------------------------------

  predicate NotDigit(c: char) {
    !IsDigit(c)
  }

  function Number(d: string): nat
    requires AllDigits(d)
  {
    if d == [] then 0 else 10 * Number(d[..|d| - 1]) + Checksums.Digit(d[|d| - 1])
  }

  /** The pieces of `s` between occurrences of `c`. */
  function SplitAt(s: string, c: char): (r: seq<string>)
    ensures r != []
  {
    if s == [] then [[]]
    else
      var rest := SplitAt(s[1..], c);
      if s[0] == c then [[]] + rest else [[s[0]] + rest[0]] + rest[1..]
  }

  predicate Validate(v: Validator, m: string) {
    match v
    case NoCheck => true
    case LuhnCheck => Checksums.LuhnAccepts(m)
    case Octets =>
      var octets := SplitAt(m, '.');
      forall k :: 0 <= k < |octets| ==> AllDigits(octets[k]) && Number(octets[k]) <= 255
    case UsPhone =>
      var d := Checksums.Strip(m, NotDigit);
      |d| == 10 || (|d| == 11 && d[0] == '1')
    case Aadhaar =>
      var d := Checksums.Strip(m, Checksums.IsSeparator);
      |d| == 12 && d[0] != '0' && d[0] != '1'
    case Upi =>
      var parts := SplitAt(m, '@');
      |parts| > 1 && '.' !in parts[1]
    case Bsn => Checksums.BsnAccepts(m)
    case Swift => |m| == 8 ==> exists k :: 0 <= k < |m| && IsDigit(m[k])
  }

  /** The pieces, with `c` between them. */
  function Joined(parts: seq<string>, c: char): string {
    if parts == [] then [] else if |parts| == 1 then parts[0] else parts[0] + [c] + Joined(parts[1..], c)
  }

  /** Splitting is the one way to write a text as pieces without the separator. */
  lemma {:induction false} SplitJoins(s: string, c: char)
    ensures Joined(SplitAt(s, c), c) == s && forall k :: 0 <= k < |SplitAt(s, c)| ==> c !in SplitAt(s, c)[k]
  {
    if s != [] {
      SplitJoins(s[1..], c);
      var rest := SplitAt(s[1..], c);
      if s[0] == c {
        assert ([[]] + rest)[1..] == rest;
        assert [] + [c] + s[1..] == s;
      } else {
        var first := [s[0]] + rest[0];
        assert ([first] + rest[1..])[1..] == rest[1..];
        if |rest| > 1 { assert first + [c] + Joined(rest[1..], c) == [s[0]] + Joined(rest, c); }
        assert [s[0]] + s[1..] == s;
      }
    }
  }

  lemma {:induction false} SplitPiece(a: string, rest: string, c: char)
    requires c !in a
    ensures SplitAt(a, c) == [a] && SplitAt(a + [c] + rest, c) == [a] + SplitAt(rest, c)
  {
    var s := a + [c] + rest;
    if a == [] {
      assert s == [c] + rest && s[1..] == rest;
    } else {
      SplitPiece(a[1..], rest, c);
      assert s[1..] == a[1..] + [c] + rest && [a[0]] + a[1..] == a;
    }
  }

  lemma {:induction false} JoinSplits(parts: seq<string>, c: char)
    requires parts != [] && forall k :: 0 <= k < |parts| ==> c !in parts[k]
    ensures SplitAt(Joined(parts, c), c) == parts
  {
    if |parts| == 1 {
      SplitPiece(parts[0], [], c);
    } else {
      JoinSplits(parts[1..], c);
      SplitPiece(parts[0], Joined(parts[1..], c), c);
    }
  }

  /** Of numbers joined by full stops, those pass that have none above 255. */
  lemma OctetsMean(octets: seq<nat>)
    requires octets != []
    ensures Validate(Octets, Joined(Printed(octets), '.')) <==> forall k :: 0 <= k < |octets| ==> octets[k] <= 255
  {
    var parts := Printed(octets);
    forall k | 0 <= k < |parts| ensures '.' !in parts[k] && Number(parts[k]) == octets[k] {
      assert AllDigits(Decimal.Dec(octets[k]));
      NumberReads(octets[k]);
    }
    JoinSplits(parts, '.');
    if exists k :: 0 <= k < |octets| && octets[k] > 255 {
      var k :| 0 <= k < |octets| && octets[k] > 255;
      assert Number(parts[k]) > 255;
    }
  }

  function Printed(octets: seq<nat>): (r: seq<string>)
    ensures |r| == |octets| && forall k :: 0 <= k < |r| ==> r[k] == Decimal.Dec(octets[k])
  {
    seq(|octets|, k requires 0 <= k < |octets| => Decimal.Dec(octets[k]))
  }

  lemma {:induction false} NumberReads(n: nat)
    ensures Number(Decimal.Dec(n)) == n
  {
    assert Checksums.Digit(Decimal.DIGITS[n % 10]) == n % 10;
    if n >= 10 {
      NumberReads(n / 10);
      var d := Decimal.Dec(n);
      assert d[..|d| - 1] == Decimal.Dec(n / 10) && d[|d| - 1] == Decimal.DIGITS[n % 10];
    }
  }

  lemma {:induction false} StripCounts(s: string, drop: char -> bool, keep: char -> bool, i: nat)
    requires (forall c :: keep(c) == !drop(c)) && i < |s| && keep(s[i]) && forall k :: 0 <= k < i ==> drop(s[k])
    ensures |Checksums.Strip(s, drop)| == Count(s, keep) > 0 && Checksums.Strip(s, drop)[0] == s[i]
  {
    StripLength(s, drop, keep);
    if i > 0 { StripCounts(s[1..], drop, keep, i - 1); }
  }

  lemma {:induction false} StripLength(s: string, drop: char -> bool, keep: char -> bool)
    requires forall c :: keep(c) == !drop(c)
    ensures |Checksums.Strip(s, drop)| == Count(s, keep)
  {
    if s != [] { StripLength(s[1..], drop, keep); }
  }

  /** A telephone number passes with ten digits, or with eleven of which the first, at `i`, is 1. */
  lemma {:induction false} UsPhoneMeans(m: string, i: nat)
    requires i < |m| && IsDigit(m[i]) && forall k :: 0 <= k < i ==> !IsDigit(m[k])
    ensures Validate(UsPhone, m) <==> Count(m, IsDigit) == 10 || (Count(m, IsDigit) == 11 && m[i] == '1')
  {
    StripCounts(m, NotDigit, IsDigit, i);
  }

  predicate NotSeparator(c: char) {
    !Checksums.IsSeparator(c)
  }

  /** An Aadhaar number passes with twelve characters other than separators, the first of them neither 0 nor 1. */
  lemma {:induction false} AadhaarMeans(m: string, i: nat)
    requires i < |m| && NotSeparator(m[i]) && forall k :: 0 <= k < i ==> Checksums.IsSeparator(m[k])
    ensures Validate(Aadhaar, m) <==> Count(m, NotSeparator) == 12 && m[i] !in "01"
  {
    StripCounts(m, Checksums.IsSeparator, NotSeparator, i);
  }

  /** An address passes if there is no full stop between its first `@` and the next. */
  lemma UpiMeans(name: string, handle: string)
    requires '@' !in name && '@' !in handle
    ensures Validate(Upi, name + "@" + handle) <==> '.' !in handle
  {
    SplitPiece(name, handle, '@');
    SplitPiece(handle, [], '@');
  }

  // ---- The detector loop -------------------------------------------------------------------------

  /** What one hit contributes. */
  function Found(p: PatternDef, t: string, start: nat, end: nat): seq<PatternMatch>
    requires start <= end <= |t|
  {
    if Validate(p.validate, t[start..end]) then [PatternMatch(p.entity, start, end, t[start..end])] else []
  }

  /** All validated matches of one pattern, found by repeated `exec` from `from` on. */
  function FindAll(p: PatternDef, t: string, from: nat): seq<PatternMatch>
    requires from <= |t|
    decreases |t| - from
  {
    match Exec(p.re, t, from)
    case NoHit => []
    case Hit(start, end) => Found(p, t, start, end) + (if end > from then FindAll(p, t, end) else [])
  }

  /** Everything a table finds, pattern by pattern. */
  function Candidates(table: seq<PatternDef>, t: string): seq<PatternMatch> {
    if table == [] then [] else FindAll(table[0], t, 0) + Candidates(table[1..], t)
  }

  ghost predicate Detected(t: string, m: PatternMatch) {
    SafeMatch(t, m.start, m.end) && m.value == t[m.start..m.end]
  }

  lemma {:induction false} FoundAreDetected(p: PatternDef, t: string, from: nat, m: PatternMatch)
    requires SafeRe(p.re) && from <= |t| && m in FindAll(p, t, from)
    ensures Detected(t, m)
    decreases |t| - from
  {
    var h := Exec(p.re, t, from);
    assert Ends(p.re, t, h.start)[0] in Ends(p.re, t, h.start);
    assert SafeMatch(t, h.start, h.end);
    if m != PatternMatch(p.entity, h.start, h.end, t[h.start..h.end]) {
      FoundAreDetected(p, t, h.end, m);
    }
  }

  /** Every candidate is a non-empty piece of the text without delimiters, and none lies inside a token. */
  lemma {:induction false} CandidatesAreDetected(table: seq<PatternDef>, t: string, m: PatternMatch)
    requires SafeExpressions(table) && m in Candidates(table, t)
    ensures Detected(t, m)
  {
    if m in FindAll(table[0], t, 0) {
      FoundAreDetected(table[0], t, 0, m);
    } else {
      CandidatesAreDetected(table[1..], t, m);
    }
  }

  // ---- What is detected --------------------------------------------------------------------------

  /** The stretch from `start` to `end` is the preferred match of the expression at `start`. */
  predicate Preferred(re: Re, t: string, start: nat, end: nat) {
    start <= end <= |t| && Ends(re, t, start) != [] && end == Ends(re, t, start)[0]
  }

  /** The entry has no validator, or it accepts. */
  predicate Valid(p: PatternDef, value: string) {
    p.validate == NoCheck || Validate(p.validate, value)
  }

  /**
   * The match is one that `p` stands for: preferred where it starts, and accepted by the validator, if
   * there is one.
   */
  ghost predicate Stands(p: PatternDef, t: string, m: PatternMatch) {
    && Preferred(p.re, t, m.start, m.end) && m.value == t[m.start..m.end] && m.entity == p.entity
    && Valid(p, m.value)
  }

  lemma {:induction false} FoundStand(p: PatternDef, t: string, from: nat, m: PatternMatch)
    requires from <= |t| && m in FindAll(p, t, from)
    ensures Stands(p, t, m)
    decreases |t| - from
  {
    var h := Exec(p.re, t, from);
    if m != PatternMatch(p.entity, h.start, h.end, t[h.start..h.end]) || !Validate(p.validate, m.value) {
      FoundStand(p, t, h.end, m);
    }
  }

  /** Every candidate is the preferred match of an entry of the table, of its type and valid for it. */
  lemma {:induction false} CandidatesStand(table: seq<PatternDef>, t: string, m: PatternMatch)
    requires m in Candidates(table, t)
    ensures exists p :: p in table && Stands(p, t, m)
  {
    if m in FindAll(table[0], t, 0) {
      FoundStand(table[0], t, 0, m);
      assert table[0] in table;
    } else {
      CandidatesStand(table[1..], t, m);
      var p :| p in table[1..] && Stands(p, t, m);
      assert p in table;
    }
  }

  /** What the loop makes of the hit from `start` to `end`. */
  ghost predicate Reported(p: PatternDef, t: string, start: nat, end: nat, found: seq<PatternMatch>) {
    && Preferred(p.re, t, start, end)
    && (Valid(p, t[start..end]) ==> PatternMatch(p.entity, start, end, t[start..end]) in found)
  }

  lemma {:induction false} PositionIsHit(p: PatternDef, t: string, from: nat, i: nat) returns (start: nat, end: nat)
    requires SafeRe(p.re) && from <= i <= |t| && Ends(p.re, t, i) != []
    ensures start <= i < end && Reported(p, t, start, end, FindAll(p, t, from))
    decreases |t| - from
  {
    var h := Exec(p.re, t, from);
    if h.NoHit? || i < h.start { ExecIsLeftmost(p.re, t, from, i); }
    assert h.end in Ends(p.re, t, h.start);
    assert SafeMatch(t, h.start, h.end);
    start, end := h.start, h.end;
    if h.end <= i { start, end := PositionIsHit(p, t, h.end, i); }
  }

  lemma {:induction false} CandidatesHave(table: seq<PatternDef>, p: PatternDef, t: string)
    requires p in table
    ensures forall m :: m in FindAll(p, t, 0) ==> m in Candidates(table, t)
  {
    if p != table[0] { CandidatesHave(table[1..], p, t); }
  }

  /**
   * Wherever an expression of the table matches lies inside a hit, which is the preferred match where it
   * starts; and a hit that needs no validation, or passes it, is a candidate.
   */
  lemma PositionIsReported(table: seq<PatternDef>, p: PatternDef, t: string, i: nat) returns (start: nat, end: nat)
    requires SafeExpressions(table) && p in table && i <= |t| && Ends(p.re, t, i) != []
    ensures start <= i < end && Reported(p, t, start, end, Candidates(table, t))
  {
    var k :| 0 <= k < |table| && table[k] == p;
    start, end := PositionIsHit(p, t, 0, i);
    CandidatesHave(table, p, t);
  }
}
