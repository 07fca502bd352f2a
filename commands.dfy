/** Vocabulary the EPP clients share: the account they log in with, the
    client transaction identifiers built from the wall clock, and the
    classification of result codes by their leading digit. */
module Commands {
  import opened Wire
  import opened Text

  /** The login identifier and password a client sends in `<login>`. */
  datatype Credentials = Credentials(clID: string, pw: string)

  /** The XML declaration and the opening `<epp>` element every command
      starts with. */
  const Prolog := "<?xml version=\"1.0\" encoding=\"UTF-8\" standalone=\"no\"?>\n<epp xmlns=\"urn:ietf:params:xml:ns:epp-1.0\">\n"

  /** A reading of `datetime.now()`, to the second. */
  datatype DateTime = DateTime(year: nat, month: nat, day: nat, hour: nat, minute: nat, second: nat)

  predicate ValidDateTime(t: DateTime)
  {
    1 <= t.year <= 9999 && 1 <= t.month <= 12 && 1 <= t.day <= 31
    && t.hour < 24 && t.minute < 60 && t.second < 60
  }

  /** A number written with at least `width` digits (`%0<width>d`). */
  function Padded(n: nat, width: nat): string
  {
    ZFill(Decimal(n), width)
  }

  /** `str(n)` has at most k digits when n < 10^k. */
  lemma {:induction false} DecimalLength(n: nat, k: nat)
    requires 1 <= k && n < Pow10(k)
    ensures |Decimal(n)| <= k
    decreases n
  {
    if n >= 10 {
      assert Pow10(1) == 10;
      DecimalLength(n / 10, k - 1);
    }
  }

  /** A number below 10^width is written with exactly `width` digits that
      denote it. */
  lemma PaddedDigits(n: nat, width: nat)
    requires 1 <= width && n < Pow10(width)
    ensures |Padded(n, width)| == width
    ensures AllDigits(Padded(n, width)) && DigitsValue(Padded(n, width)) == n
  {
    DecimalLength(n, width);
    ZFillValue(Decimal(n), width);
  }

  /** `strftime('%Y%m%d-%H%M%S')`. */
  function Stamp(t: DateTime): (s: string)
    ensures |s| >= 15
  {
    Padded(t.year, 4) + Padded(t.month, 2) + Padded(t.day, 2) + "-"
    + Padded(t.hour, 2) + Padded(t.minute, 2) + Padded(t.second, 2)
  }

  /** epp_cli `_generate_clTRID`. */
  function ClTRID(t: DateTime): (r: string)
    ensures |r| >= 19 && r[..4] == "CLI-" && r[4..] == Stamp(t)
  {
    "CLI-" + Stamp(t)
  }

  /** A client transaction identifier is "CLI-" and fifteen characters, and
      two clock readings that differ in any field give different
      identifiers: identifiers are unique as long as the clock moves on
      between commands. */
  lemma ClTRIDInjective(a: DateTime, b: DateTime)
    requires ValidDateTime(a) && ValidDateTime(b)
    ensures |ClTRID(a)| == 19 && ClTRID(a)[..4] == "CLI-"
    ensures ClTRID(a) == ClTRID(b) ==> a == b
  {
    StampFields(a);
    StampFields(b);
    if ClTRID(a) == ClTRID(b) {
      var s, u := Stamp(a), Stamp(b);
      assert s == ClTRID(a)[4..] == ClTRID(b)[4..] == u;
      assert DigitsValue(s[0..4]) == a.year && DigitsValue(u[0..4]) == b.year;
      assert DigitsValue(s[4..6]) == a.month && DigitsValue(u[4..6]) == b.month;
      assert DigitsValue(s[6..8]) == a.day && DigitsValue(u[6..8]) == b.day;
      assert DigitsValue(s[9..11]) == a.hour && DigitsValue(u[9..11]) == b.hour;
      assert DigitsValue(s[11..13]) == a.minute && DigitsValue(u[11..13]) == b.minute;
      assert DigitsValue(s[13..15]) == a.second && DigitsValue(u[13..15]) == b.second;
    }
  }

  /** Where the seven parts of a stamp sit once each has its width. */
  lemma StampSlices(y: string, mo: string, d: string, h: string, mi: string, se: string)
    requires |y| == 4 && |mo| == 2 && |d| == 2 && |h| == 2 && |mi| == 2 && |se| == 2
    ensures var s := y + mo + d + "-" + h + mi + se;
      && |s| == 15 && s[8] == '-'
      && s[0..4] == y && s[4..6] == mo && s[6..8] == d
      && s[9..11] == h && s[11..13] == mi && s[13..15] == se
  {
  }

  /** Where each field of a valid clock reading sits in its stamp. */
  lemma StampFields(t: DateTime)
    requires ValidDateTime(t)
    ensures var s := Stamp(t);
      && |s| == 15 && s[8] == '-'
      && AllDigits(s[0..4]) && DigitsValue(s[0..4]) == t.year
      && AllDigits(s[4..6]) && DigitsValue(s[4..6]) == t.month
      && AllDigits(s[6..8]) && DigitsValue(s[6..8]) == t.day
      && AllDigits(s[9..11]) && DigitsValue(s[9..11]) == t.hour
      && AllDigits(s[11..13]) && DigitsValue(s[11..13]) == t.minute
      && AllDigits(s[13..15]) && DigitsValue(s[13..15]) == t.second
  {
    assert Pow10(2) == 100 && Pow10(4) == 10000;
    PaddedDigits(t.year, 4);
    PaddedDigits(t.month, 2);
    PaddedDigits(t.day, 2);
    PaddedDigits(t.hour, 2);
    PaddedDigits(t.minute, 2);
    PaddedDigits(t.second, 2);
    StampSlices(Padded(t.year, 4), Padded(t.month, 2), Padded(t.day, 2),
                Padded(t.hour, 2), Padded(t.minute, 2), Padded(t.second, 2));
  }

  /** The UTF-8 bytes of the result codes the scripts search replies for:
      "1000" (command completed successfully) and "1500" (command
      completed successfully; ending session), section 3 of RFC 5730. */
  const Code1000: seq<byte> := [0x31, 0x30, 0x30, 0x30]
  const Code1500: seq<byte> := [0x31, 0x35, 0x30, 0x30]

  lemma CodesEncoded()
    ensures Utf8("1000") == Code1000 && Utf8("1500") == Code1500
  {
  }

  /** How epp_cli reports a result code. */
  datatype Verdict = Success | SuccessWithInfo | Failure

  /** epp_cli `_analyze_response`: by the code's first character only. */
  function Classify(code: string): (v: Verdict)
    ensures v == Failure <==> code == [] || (code[0] != '1' && code[0] != '2')
  {
    if code != [] && code[0] == '1' then Success
    else if code != [] && code[0] == '2' then SuccessWithInfo
    else Failure
  }

  /** The first digit of a four-digit number is its thousands. */
  lemma DecimalLeading(n: nat)
    requires 1000 <= n < 10000
    ensures Decimal(n)[0] == DigitChar(n / 1000)
  {
    assert Decimal(n) == Decimal(n / 10) + [DigitChar(n % 10)];
    assert Decimal(n / 10) == Decimal(n / 10 / 10) + [DigitChar(n / 10 % 10)];
    assert Decimal(n / 10 / 10) == Decimal(n / 10 / 10 / 10) + [DigitChar(n / 10 / 10 % 10)];
    assert n / 10 / 10 / 10 == n / 1000;
  }

  /** On the four-digit codes of section 3 of RFC 5730, the classification
      is by thousands: 1xxx is success, 2xxx success with information, every
      other code a failure. */
  lemma ClassifyByValue(n: nat)
    requires 1000 <= n < 10000
    ensures Classify(Decimal(n)) == Success <==> n < 2000
    ensures Classify(Decimal(n)) == SuccessWithInfo <==> 2000 <= n < 3000
    ensures Classify(Decimal(n)) == Failure <==> 3000 <= n
  {
    DecimalLeading(n);
  }

  /** Section 3 of RFC 5730: only the 1xxx codes report success. */
  predicate RfcSuccess(n: nat)
  {
    1000 <= n < 2000
  }

  /** The classification departs from RFC 5730 on exactly the 2xxx codes,
      which the RFC defines as command errors and the client reports as
      success with information. */
  lemma ClassifyVersusRfc(n: nat)
    requires 1000 <= n < 10000
    ensures (Classify(Decimal(n)) != Failure) == RfcSuccess(n) <==> !(2000 <= n < 3000)
  {
    ClassifyByValue(n);
  }
}
