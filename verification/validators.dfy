/**
 The four field checks of the booking backend (app.py lines 12-54), with the
 HTTP request and response stripped away: each takes the field's text (an
 absent field arrives as "", the default the handlers pass to `data.get`).
 */
module Validators {

  import opened Wrappers
  import opened Text
  import opened Decimal
  import opened Calendar

  const PhoneLength := 10

  /** The cities a booking may be made in, in title case. */
  const AllowedCities: seq<string> := ["Delhi", "Bangalore"]

  /**
   A phone number is valid when it is all digits and exactly ten long: that
   is, when it is the ten-digit zero-padded spelling of some number below 10^10.
   */
  function ValidatePhone(phone: string): (r: bool)
    ensures r <==> exists n: nat :: n < Pow10(PhoneLength) && phone == FixedWidth(n, PhoneLength)
  {
    if |phone| == PhoneLength && AllDigits(phone) then
      FixedWidthOfValue(phone);
      true
    else
      false
  }

  /**
   A city is valid when, trimmed and title-cased, it is an allowed city: that
   is, when it spells "delhi" or "bangalore" in any mix of letter case, with
   any whitespace around it.
   */
  function ValidateCity(city: string): (r: bool)
    ensures r <==> Lower(Trim(city)) in ["delhi", "bangalore"]
  {
    var t := Trim(city);
    AllowedIffLowered(t);
    Title(t) in AllowedCities
  }

  lemma AllowedIffLowered(t: string)
    ensures Title(t) in AllowedCities <==> Lower(t) in ["delhi", "bangalore"]
  {
    assert Lower("Delhi") == "delhi";
    assert Lower("Bangalore") == "bangalore";
    CityMatch(t, "Delhi", "delhi");
    CityMatch(t, "Bangalore", "bangalore");
  }

  /** A text title-cases to the city `name` exactly when it lowers to `lower`. */
  lemma CityMatch(t: string, name: string, lower: string)
    requires |name| > 0 && IsUpper(name[0])
    requires forall k :: 1 <= k < |name| ==> IsLower(name[k])
    requires lower == Lower(name)
    ensures Title(t) == name <==> Lower(t) == lower
  {
    LowerOfTitle(t);
    if Lower(t) == lower {
      forall k | 0 <= k < |t|
        ensures IsLetter(t[k])
      {
        assert Lower(t)[k] == lower[k];
      }
      TitleOfWord(t);
      assert ToLower(t[0]) == ToLower(name[0]) by {
        assert Lower(t)[0] == Lower(name)[0];
      }
      assert ToUpper(t[0]) == name[0];
      assert Lower(t[1..]) == name[1..] by {
        assert Lower(t[1..]) == Lower(t)[1..];
        forall k | 0 <= k < |name| - 1
          ensures Lower(name)[1..][k] == name[1..][k]
        {
          assert IsLower(name[k + 1]);
        }
      }
      assert name == [name[0]] + name[1..];
    }
  }

  /**
   The date check against a given "today": the text must parse as
   day-month-year and name a real day on or after today. `today` stands for
   `datetime.now().date()`.
   */
  function ValidateDate(text: string, today: Date): (r: bool)
    ensures r <==> exists d :: IsRealDate(d) && Spells(text, d) && OnOrAfter(d, today)
  {
    ParsedExactlySpelled(text);
    match ParseDate(text)
    case Some(d) => OnOrAfter(d, today)
    case None => false
  }

  lemma ParsedExactlySpelled(text: string)
    ensures forall d :: ParseDate(text) == Some(d) <==> IsRealDate(d) && Spells(text, d)
  {
    forall d
      ensures ParseDate(text) == Some(d) <==> IsRealDate(d) && Spells(text, d)
    {
      ParseDateIff(text, d);
    }
  }

  datatype NameReply = NameReply(isValid: bool, name: string)

  /**
   The name check: the reply carries the name with surrounding whitespace
   removed, and is valid when the name has any non-whitespace character.
   */
  function CollectName(name: string): (r: NameReply)
    ensures r.name == Trim(name)
    ensures Stripped(r.name) && IsCore(r.name, name)
    ensures r.isValid <==> exists k :: 0 <= k < |name| && !IsSpace(name[k])
  {
    var t := Trim(name);
    NameReply(|t| > 0, t)
  }

  /** Empty text, separators, a country prefix and short numbers are all refused. */
  lemma PhoneExamples()
    ensures ValidatePhone("9876543210")
    ensures ValidatePhone("0000000000")
    ensures !ValidatePhone("")
    ensures !ValidatePhone("987654321")
    ensures !ValidatePhone("98765432100")
    ensures !ValidatePhone("+987654321")
    ensures !ValidatePhone("98765-4321")
    ensures !ValidatePhone("98765 4321")
  {
    assert !IsDigit("+987654321"[0]);
    assert !IsDigit("98765-4321"[5]);
    assert !IsDigit("98765 4321"[5]);
  }

  /** Letter case and surrounding whitespace do not matter. */
  lemma CityExampleMixedCase()
    ensures ValidateCity("  dELhi ")
  {
    var a := "  dELhi ";
    assert a[2..7] == "dELhi";
    assert Lower("dELhi") == "delhi";
    CityExample(a, 2, 7);
  }

  lemma CityExampleUpperCase()
    ensures ValidateCity("BANGALORE\n")
  {
    var b := "BANGALORE\n";
    assert b[0..9] == "BANGALORE";
    assert Lower("BANGALORE") == "bangalore";
    CityExample(b, 0, 9);
  }

  /** A space inside the name is not forgiven. */
  lemma CityExampleInnerSpace()
    ensures !ValidateCity("Del hi")
  {
    CityExample("Del hi", 0, 6);
  }

  /** Other cities, and the empty text, are refused. */
  lemma CityExampleOther()
    ensures !ValidateCity("Mumbai")
  {
    CityExample("Mumbai", 0, 6);
  }

  lemma CityExampleEmpty()
    ensures !ValidateCity("")
  {
    CityExample("", 0, 0);
  }

  /** Evaluates the city check on a text whose stripped core is `city[i..j]`. */
  lemma CityExample(city: string, i: nat, j: nat)
    requires i <= j <= |city|
    requires AllSpace(city[..i]) && AllSpace(city[j..]) && Stripped(city[i..j])
    ensures ValidateCity(city) <==> Lower(city[i..j]) in ["delhi", "bangalore"]
  {
    TrimUnique(city, i, j);
  }

  /**
   The city check depends only on the stripped, lowered text: running it on
   that normal form gives the same answer.
   */
  lemma CityIgnoresCaseAndSpace(city: string)
    ensures ValidateCity(city) == ValidateCity(Lower(Trim(city)))
  {
    var l := Lower(Trim(city));
    LowerKeepsStripped(Trim(city));
    assert l[..0] == [] && l[|l|..] == [] && l[0..|l|] == l;
    TrimUnique(l, 0, |l|);
    LowerIdempotent(Trim(city));
  }

  /** Today's own date is valid. */
  lemma ValidateDateToday(today: Date)
    requires IsRealDate(today)
    ensures ValidateDate(FormatDate(today), today)
  {
    ParseFormatDate(today);
  }

  /** A date valid against some today stays valid against any earlier today. */
  lemma ValidateDateMonotone(text: string, later: Date, earlier: Date)
    requires ValidateDate(text, later)
    requires OnOrAfter(later, earlier)
    ensures ValidateDate(text, earlier)
  {
  }

  /** A real date strictly before today is refused, whichever way it is spelled. */
  lemma ValidateDatePast(text: string, d: Date, today: Date)
    requires ParseDate(text) == Some(d)
    requires !OnOrAfter(d, today)
    ensures !ValidateDate(text, today)
  {
  }

  /** Evaluates the date check on a text of three fields, the first two without a dash. */
  lemma DateExample(text: string, dayText: string, monthText: string, yearText: string, today: Date)
    requires '-' !in dayText && '-' !in monthText
    requires text == dayText + "-" + monthText + "-" + yearText
    ensures ValidateDate(text, today) <==>
      && DayField(dayText).Some? && MonthField(monthText).Some? && YearField(yearText).Some?
      && var d := Date(YearField(yearText).value, MonthField(monthText).value, DayField(dayText).value);
      && IsRealDate(d) && OnOrAfter(d, today)
  {
    MatchFormatFields(dayText, monthText, yearText);
  }

  /** One-digit day and month fields are read (checked against 10 October 2026). */
  lemma DateExampleShortFields()
    ensures ValidateDate("1-1-2030", Date(2026, 10, 10))
  {
    YearText(2030, "2030");
    DateExample("1-1-2030", "1", "1", "2030", Date(2026, 10, 10));
  }

  lemma DateExampleFuture()
    ensures ValidateDate("25-12-2030", Date(2026, 10, 10))
  {
    YearText(2030, "2030");
    assert DayField("25") == Some(25) && MonthField("12") == Some(12);
    DateExample("25-12-2030", "25", "12", "2030", Date(2026, 10, 10));
  }

  /** 29 February exists in leap years only. */
  lemma DateExampleLeapDay()
    ensures ValidateDate("29-02-2028", Date(2026, 10, 10))
  {
    YearText(2028, "2028");
    assert DayField("29") == Some(29) && MonthField("02") == Some(2);
    assert IsLeapYear(2028) && DaysInMonth(2028, 2) == 29;
    assert IsRealDate(Date(2028, 2, 29));
    DateExample("29-02-2028", "29", "02", "2028", Date(2026, 10, 10));
  }

  lemma DateExampleNoLeapDay()
    ensures !ValidateDate("29-02-2027", Date(2026, 10, 10))
  {
    YearText(2027, "2027");
    assert DayField("29") == Some(29) && MonthField("02") == Some(2);
    DateExample("29-02-2027", "29", "02", "2027", Date(2026, 10, 10));
  }

  /** Days past the end of their month are refused. */
  lemma DateExampleNoSuchDay()
    ensures !ValidateDate("31-04-2030", Date(2026, 10, 10))
  {
    YearText(2030, "2030");
    assert DayField("31") == Some(31) && MonthField("04") == Some(4);
    DateExample("31-04-2030", "31", "04", "2030", Date(2026, 10, 10));
  }

  /** A real date before today is refused. */
  lemma DateExamplePast()
    ensures !ValidateDate("25-12-2025", Date(2026, 10, 10))
  {
    YearText(2025, "2025");
    assert DayField("25") == Some(25) && MonthField("12") == Some(12);
    DateExample("25-12-2025", "25", "12", "2025", Date(2026, 10, 10));
  }

  /** Text in another layout is refused. */
  lemma DateExampleMalformed()
    ensures !ValidateDate("2025/12/25", Date(2026, 10, 10))
  {
    assert '-' !in "2025/12/25";
  }

  lemma YearText(y: nat, t: string)
    requires y < 10000 && t == FixedWidth(y, 4)
    ensures YearField(t) == Some(y)
  {
    ValueOfFixedWidth(y, 4);
  }

  /** A blank name is invalid and comes back empty. */
  lemma NameExampleBlank()
    ensures CollectName("  ") == NameReply(false, "")
    ensures CollectName("") == NameReply(false, "")
  {
    NameExample("  ", 2, 2);
    NameExample("", 0, 0);
  }

  /** Any other name is valid and comes back trimmed. */
  lemma NameExamplePadded()
    ensures CollectName(" Bob ") == NameReply(true, "Bob")
  {
    var b := " Bob ";
    assert b[1..4] == "Bob";
    NameExample(b, 1, 4);
  }

  /** Evaluates the name check on a text whose stripped core is `name[i..j]`. */
  lemma NameExample(name: string, i: nat, j: nat)
    requires i <= j <= |name|
    requires AllSpace(name[..i]) && AllSpace(name[j..]) && Stripped(name[i..j])
    ensures CollectName(name) == NameReply(i < j, name[i..j])
  {
    TrimUnique(name, i, j);
  }

  /** Sending the returned name back gets the same reply. */
  lemma CollectNameIdempotent(name: string)
    ensures CollectName(CollectName(name).name) == CollectName(name)
  {
    TrimIdempotent(name);
  }

}
