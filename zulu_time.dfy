/**
  convertToZuluTime (google-calendar-chatgpt-assisted.ts:56-66): the text that
  Date.prototype.toISOString produces, "YYYY-MM-DDTHH:mm:ss.sssZ", loses every
  '-' and ':', is cut at its first '.', and gets a 'Z' appended. The Date
  construction and toISOString itself belong to the host and are an input
  here: None stands for an invalid Date, on which toISOString throws a
  RangeError that the function catches, returning "".
*/
module ZuluTime {
  import opened Wrappers
  import opened StringOps

  /** `replace(/[-:]/g, '')`: every '-' and ':' removed, everything else kept in order. */
  function RemoveSeparators(s: string): (r: string)
    ensures '-' !in r && ':' !in r
  {
    if s == [] then []
    else
      var rest := RemoveSeparators(s[1..]);
      assert s == [s[0]] + s[1..];
      if s[0] == '-' || s[0] == ':' then rest else [s[0]] + rest
  }

  /** What convertToZuluTime returns for the ISO text of a valid Date. */
  function CompactZulu(iso: string): (r: string)
    ensures |r| > 0 && r[|r| - 1] == 'Z'
    ensures '-' !in r && ':' !in r && '.' !in r
  {
    FirstPiece(RemoveSeparators(iso), '.') + "Z"
  }

  /** convertToZuluTime, given what `new Date(s).toISOString()` does: text, or None when it throws. */
  function ConvertToZulu(iso: Option<string>): (r: string)
    ensures r == "" <==> iso.None?
    ensures iso.Some? ==> r[|r| - 1] == 'Z' && '-' !in r && ':' !in r && '.' !in r
  {
    match iso
    case None => ""
    case Some(text) => CompactZulu(text)
  }

  // ----------------------------------------------- the fields of an ISO timestamp

  predicate IsDigits(s: string, n: nat)
  {
    |s| == n && forall i :: 0 <= i < |s| ==> '0' <= s[i] <= '9'
  }

  /** The decimal fields of a UTC instant as toISOString writes them. */
  datatype Timestamp = Timestamp(year: string, month: string, day: string,
                                 hour: string, minute: string, second: string, millis: string)
  {
    /** Every field but the year has its fixed number of digits. */
    predicate TimeFieldsValid()
    {
      IsDigits(month, 2) && IsDigits(day, 2) && IsDigits(hour, 2)
      && IsDigits(minute, 2) && IsDigits(second, 2) && IsDigits(millis, 3)
    }

    /** A year from 0000 to 9999, the range toISOString writes with four digits. */
    predicate Valid()
    {
      IsDigits(year, 4) && TimeFieldsValid()
    }

    /** "YYYY-MM-DDTHH:mm:ss.sssZ" */
    function IsoText(): string
    {
      year + "-" + month + "-" + day + "T" + hour + ":" + minute + ":" + second + "." + millis + "Z"
    }

    /** "YYYYMMDDTHHmmssZ", the form the calendar's `dates` parameter takes. */
    function ZuluText(): string
    {
      year + month + day + "T" + hour + minute + second + "Z"
    }
  }

  // ----------------------------------------------- lemmas

  lemma {:induction false} RemoveSeparatorsAppend(a: string, b: string)
    ensures RemoveSeparators(a + b) == RemoveSeparators(a) + RemoveSeparators(b)
    decreases |a|
  {
    if a == [] {
      assert a + b == b;
    } else {
      RemoveSeparatorsAppend(a[1..], b);
      assert (a + b)[1..] == a[1..] + b;
    }
  }

  lemma {:induction false} RemoveSeparatorsKeeps(s: string)
    requires '-' !in s && ':' !in s
    ensures RemoveSeparators(s) == s
    decreases |s|
  {
    if s != [] {
      RemoveSeparatorsKeeps(s[1..]);
      assert s == [s[0]] + s[1..];
    }
  }

  /** A character the ISO text lacks is also missing from its compact form. */
  lemma {:induction false} CompactZuluLacks(iso: string, c: char)
    requires c != 'Z' && c !in iso
    ensures c !in CompactZulu(iso)
  {
    RemoveSeparatorsLacks(iso, c);
    var r := FirstPiece(RemoveSeparators(iso), '.');
    assert forall i :: 0 <= i < |r| ==> r[i] == RemoveSeparators(iso)[i];
  }

  lemma {:induction false} RemoveSeparatorsLacks(s: string, c: char)
    requires c !in s
    ensures c !in RemoveSeparators(s)
    decreases |s|
  {
    if s != [] {
      RemoveSeparatorsLacks(s[1..], c);
      assert s[0] != c;
    }
  }

  lemma DigitsConcat(a: string, n: nat, b: string, m: nat)
    requires IsDigits(a, n) && IsDigits(b, m)
    ensures IsDigits(a + b, n + m)
  {
    assert forall i :: n <= i < n + m ==> (a + b)[i] == b[i - n];
  }

  /** "YYYYMMDDTHHmmss" has no '.', so the cut at the first '.' falls right after it. */
  lemma CompactHeadLacksDot(year: string, t: Timestamp)
    requires t.TimeFieldsValid()
    requires IsDigits(year, |year|)
    ensures '.' !in (year + t.month + t.day) + "T" + (t.hour + t.minute + t.second)
  {
    DigitsConcat(year, |year|, t.month, 2);
    DigitsConcat(year + t.month, |year| + 2, t.day, 2);
    DigitsConcat(t.hour, 2, t.minute, 2);
    DigitsConcat(t.hour + t.minute, 4, t.second, 2);
    var d, tm := year + t.month + t.day, t.hour + t.minute + t.second;
    assert '.' !in d && '.' !in tm;
  }

  lemma DigitsAreKept(s: string, n: nat)
    requires IsDigits(s, n)
    ensures RemoveSeparators(s) == s && '.' !in s
  {
    RemoveSeparatorsKeeps(s);
  }

  /** "YYYY-MM-DD" with the separators removed. */
  lemma RemoveSeparatorsOfDate(t: Timestamp)
    requires t.TimeFieldsValid()
    ensures RemoveSeparators(t.year + "-" + t.month + "-" + t.day) == RemoveSeparators(t.year) + t.month + t.day
  {
    DigitsAreKept(t.month, 2);
    DigitsAreKept(t.day, 2);
    assert RemoveSeparators("-") == "";
    RemoveSeparatorsAppend(t.year, "-");
    RemoveSeparatorsAppend(t.year + "-", t.month);
    RemoveSeparatorsAppend(t.year + "-" + t.month, "-");
    RemoveSeparatorsAppend(t.year + "-" + t.month + "-", t.day);
  }

  /** "HH:mm:ss" with the separators removed. */
  lemma RemoveSeparatorsOfTime(t: Timestamp)
    requires t.TimeFieldsValid()
    ensures RemoveSeparators(t.hour + ":" + t.minute + ":" + t.second) == t.hour + t.minute + t.second
  {
    DigitsAreKept(t.hour, 2);
    DigitsAreKept(t.minute, 2);
    DigitsAreKept(t.second, 2);
    assert RemoveSeparators(":") == "";
    RemoveSeparatorsAppend(t.hour, ":");
    RemoveSeparatorsAppend(t.hour + ":", t.minute);
    RemoveSeparatorsAppend(t.hour + ":" + t.minute, ":");
    RemoveSeparatorsAppend(t.hour + ":" + t.minute + ":", t.second);
  }

  /** The ISO text with the separators removed, the fractional part still in place. */
  lemma RemoveSeparatorsOfIso(t: Timestamp)
    requires t.TimeFieldsValid()
    ensures RemoveSeparators(t.IsoText()) ==
            (RemoveSeparators(t.year) + t.month + t.day) + "T" + (t.hour + t.minute + t.second) + "." + (t.millis + "Z")
  {
    var date := t.year + "-" + t.month + "-" + t.day;
    var time := t.hour + ":" + t.minute + ":" + t.second;
    var frac := t.millis + "Z";
    RemoveSeparatorsOfDate(t);
    RemoveSeparatorsOfTime(t);
    DigitsAreKept(t.millis, 3);
    RemoveSeparatorsKeeps(frac);
    assert t.IsoText() == date + "T" + time + "." + frac;
    RemoveSeparatorsOfParts(date, time, frac);
  }

  lemma RemoveSeparatorsOfParts(date: string, time: string, frac: string)
    requires RemoveSeparators(frac) == frac
    ensures RemoveSeparators(date + "T" + time + "." + frac) ==
            RemoveSeparators(date) + "T" + RemoveSeparators(time) + "." + frac
  {
    RemoveSeparatorsKeeps("T");
    RemoveSeparatorsKeeps(".");
    RemoveSeparatorsAppend(date, "T");
    RemoveSeparatorsAppend(date + "T", time);
    RemoveSeparatorsAppend(date + "T" + time, ".");
    RemoveSeparatorsAppend(date + "T" + time + ".", frac);
  }

  /**
    For the ISO text of any instant in years 0000 to 9999, convertToZuluTime
    gives the compact form: no '-', no ':', no fractional seconds, one final 'Z'.
  */
  lemma CompactZuluOfIso(t: Timestamp)
    requires t.Valid()
    ensures CompactZulu(t.IsoText()) == t.ZuluText()
  {
    DigitsAreKept(t.year, 4);
    CompactZuluOfFields(t, t.year);
  }

  /** The common step: the compact form once the year has lost its separators. */
  lemma CompactZuluOfFields(t: Timestamp, year: string)
    requires t.TimeFieldsValid() && IsDigits(year, |year|) && RemoveSeparators(t.year) == year
    ensures CompactZulu(t.IsoText()) == t.(year := year).ZuluText()
  {
    RemoveSeparatorsOfIso(t);
    var head := (year + t.month + t.day) + "T" + (t.hour + t.minute + t.second);
    assert RemoveSeparators(t.IsoText()) == head + "." + (t.millis + "Z");
    CompactHeadLacksDot(year, t);
    FirstPieceAt(head, '.', t.millis + "Z");
    assert CompactZulu(t.IsoText()) == head + "Z";
  }

  /** The compact form has sixteen characters and its only 'Z' is the last. */
  lemma ZuluTextShape(t: Timestamp)
    requires t.Valid()
    ensures var z := t.ZuluText();
      && |z| == 16 && z[8] == 'T' && z[15] == 'Z'
      && (forall i :: 0 <= i < 15 && i != 8 ==> '0' <= z[i] <= '9')
  {
  }

  /**
    toISOString writes years outside 0000 to 9999 with a sign and six digits;
    removing every '-' then also removes the sign of a year before 0000.
  */
  lemma CompactZuluDropsNegativeYearSign(t: Timestamp, digits: string)
    requires t.TimeFieldsValid() && IsDigits(digits, 6) && t.year == "-" + digits
    ensures CompactZulu(t.IsoText()) == t.(year := digits).ZuluText()
  {
    DigitsAreKept(digits, 6);
    assert RemoveSeparators("-") == "";
    RemoveSeparatorsAppend("-", digits);
    CompactZuluOfFields(t, digits);
  }

  lemma ExampleTexts()
    ensures Timestamp("2024", "03", "01", "09", "00", "00", "000").IsoText() == "2024-03-01T09:00:00.000Z"
    ensures Timestamp("2024", "03", "01", "09", "00", "00", "000").ZuluText() == "20240301T090000Z"
  {
  }

  lemma CompactZuluExample()
    ensures CompactZulu("2024-03-01T09:00:00.000Z") == "20240301T090000Z"
  {
    var t := Timestamp("2024", "03", "01", "09", "00", "00", "000");
    assert t.Valid();
    CompactZuluOfIso(t);
    ExampleTexts();
  }
}
