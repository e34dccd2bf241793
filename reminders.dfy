/**
 * Reading reminders (telegram/reminders.py): per user an enabled flag and a
 * sorted, duplicate-free list of "HH:MM" times; the users due at a given time;
 * and the parser for times typed by users.
 *
 * The JSON dict becomes the map field of `ReminderStore`, together with the
 * insertion order of its keys, which `get_users_to_remind` follows.
 */
module Reminders {
  import opened Wrappers
  import opened Text

  type UserId = int

  datatype ReminderSettings = ReminderSettings(enabled: bool, times: seq<string>)

  /** What `get_user_reminders` reports for a user without settings. */
  const NoReminders := ReminderSettings(false, [])

  // ---------------------------------------------------------------------------
  // Time strings
  // ---------------------------------------------------------------------------

  /** Text made of digits and minus signs, as numbers are printed. */
  predicate NumberText(t: string) {
    forall i :: 0 <= i < |t| ==> IsDigit(t[i]) || t[i] == '-'
  }

  /** Text made of digits, minus signs and colons, as times are printed. */
  predicate TimeText(t: string) {
    forall i :: 0 <= i < |t| ==> IsDigit(t[i]) || t[i] == '-' || t[i] == ':'
  }

  /** `f"{n:02d}"`: zero-padded to two characters after the sign. */
  function TwoDigits(n: int): (r: string)
    ensures NumberText(r)
    ensures 0 <= n < 10 ==> |r| == 2 && r[0] == '0'
  {
    if n < 0 then "-" + Decimal(-n)
    else if n < 10 then "0" + Decimal(n)
    else Decimal(n)
  }

  /** `f"{hour:02d}:{minute:02d}"`. */
  function FormatTime(hour: int, minute: int): (t: string)
    ensures TimeText(t)
  {
    TwoDigits(hour) + ":" + TwoDigits(minute)
  }

  /** Every formatted number reads back as itself. */
  lemma ParseTwoDigits(n: int)
    ensures ParseInt(TwoDigits(n)) == Some(n)
  {
    if n < 0 {
      ParseSigned(n);
    } else if n < 10 {
      ParsePadded(n);
    } else {
      ParseDecimal(n);
    }
  }

  lemma ParseSigned(n: int)
    requires n < 0
    ensures ParseInt(TwoDigits(n)) == Some(n)
  {
    var m: nat := -n;
    var t := "-" + Decimal(m);
    assert ParseInt(t) == Some(n) by {
      ParseNegativeDecimal(m);
    }
    assert TwoDigits(n) == t;
  }

  /** A digit after a padding zero reads back as the digit. */
  lemma ParsePadded(n: int)
    requires 0 <= n < 10
    ensures ParseInt(TwoDigits(n)) == Some(n)
  {
    var t := TwoDigits(n);
    StripNoSpace(t);
    assert t == ['0', DigitChar(n)];
    assert t[..1] == ['0'];
    assert DigitsValue(t) == DigitsValue(['0']) * 10 + n;
  }

  // ---------------------------------------------------------------------------
  // Sorted time lists
  // ---------------------------------------------------------------------------

  /** Sorted by Python string order with no time twice. */
  predicate SortedTimes(s: seq<string>) {
    forall i, j :: 0 <= i < j < |s| ==> Less(s[i], s[j])
  }

  /** `times.append(t); times.sort()` for a time not yet in the list. */
  function InsertTime(t: string, s: seq<string>): (r: seq<string>)
    requires SortedTimes(s) && t !in s
    ensures SortedTimes(r)
    ensures |r| == |s| + 1
    ensures forall x :: x in r <==> x in s || x == t
  {
    if s == [] then [t]
    else if Less(t, s[0]) then
      assert forall j :: 0 <= j < |s| ==> Less(t, s[j]) by {
        forall j | 0 <= j < |s| ensures Less(t, s[j]) {
          if j > 0 {
            LessTransitive(t, s[0], s[j]);
          }
        }
      }
      [t] + s
    else
      LessTotal(t, s[0]);
      var rest := InsertTime(t, s[1..]);
      assert forall i :: 0 <= i < |rest| ==> Less(s[0], rest[i]) by {
        forall i | 0 <= i < |rest| ensures Less(s[0], rest[i]) {
          assert rest[i] in rest;
          if rest[i] != t {
            var j :| 0 <= j < |s[1..]| && s[1..][j] == rest[i];
            assert s[j + 1] == rest[i];
          }
        }
      }
      [s[0]] + rest
  }

  /** The position of the first occurrence of `t`. */
  function IndexOf(t: string, s: seq<string>): (k: nat)
    requires t in s
    ensures k < |s| && s[k] == t
    ensures forall j :: 0 <= j < k ==> s[j] != t
  {
    if s[0] == t then 0 else 1 + IndexOf(t, s[1..])
  }

  /** `times.remove(t)`: the first occurrence of `t` deleted. */
  function RemoveTime(t: string, s: seq<string>): (r: seq<string>)
    requires t in s
  {
    var k := IndexOf(t, s);
    s[..k] + s[k + 1..]
  }

  /** Removing a time keeps the list sorted and drops exactly that time. */
  lemma RemoveTimeKeepsSorted(t: string, s: seq<string>)
    requires SortedTimes(s) && t in s
    ensures SortedTimes(RemoveTime(t, s))
    ensures |RemoveTime(t, s)| == |s| - 1
    ensures forall x :: x in RemoveTime(t, s) <==> x in s && x != t
  {
    var r := RemoveTime(t, s);
    var k := IndexOf(t, s);
    assert forall i :: 0 <= i < |r| ==> r[i] == if i < k then s[i] else s[i + 1];
    forall x | x in s && x != t
      ensures x in r
    {
      var i :| 0 <= i < |s| && s[i] == x;
      assert r[if i < k then i else i - 1] == x;
    }
    forall x | x in r
      ensures x in s && x != t
    {
      var i :| 0 <= i < |r| && r[i] == x;
      LessIrreflexive(t);
      if i < k {
        assert Less(s[i], s[k]);
      } else {
        assert Less(s[k], s[i + 1]);
      }
    }
  }

  /** The times after `set_reminder` adds `t`. */
  function AddTime(t: string, s: seq<string>): (r: seq<string>)
    requires SortedTimes(s)
    ensures SortedTimes(r)
    ensures forall x :: x in r <==> x in s || x == t
    ensures t in s ==> r == s
  {
    if t in s then s else InsertTime(t, s)
  }

  // ---------------------------------------------------------------------------
  // Parsing typed times
  // ---------------------------------------------------------------------------

  /** The text left after lower-casing, trimming and deleting "at", "am" and "pm". */
  function Cleaned(s: string): string {
    Strip(RemoveAll(RemoveAll(RemoveAll(Strip(Lower(s)), "at"), "am"), "pm"))
  }

  /**
   * `parse_time_string`: "H:M" gives (H, M), anything after a second colon
   * being ignored; text without a colon gives (H, 0); text that is not a
   * number gives `None`. The "am"/"pm" suffix is deleted and does not change
   * the hour.
   */
  function ParseTimeString(s: string): (r: Option<(int, int)>) {
    ParseCleaned(Cleaned(s))
  }

  /** The parsing after the cleaning. */
  function ParseCleaned(t: string): (r: Option<(int, int)>)
    ensures ':' !in t && r.Some? ==> r.value.1 == 0
  {
    if ':' in t then ParseParts(Split(t, ':'))
    else
      var hour := ParseInt(t);
      if hour.Some? then Some((hour.value, 0)) else None
  }

  /** Hour and minute from the pieces around the colons. */
  function ParseParts(parts: seq<string>): Option<(int, int)>
    requires |parts| >= 1
  {
    var hour := ParseInt(parts[0]);
    var minute := if |parts| > 1 then ParseInt(parts[1]) else Some(0);
    if hour.Some? && minute.Some? then Some((hour.value, minute.value)) else None
  }

  /** Printed numbers and times pass through the cleaning unchanged. */
  lemma CleanedPlain(t: string)
    requires TimeText(t)
    ensures Cleaned(t) == t
  {
    LowerNoCapitals(t);
    StripNoSpace(t);
    assert 'a' !in t && 'p' !in t;
    RemoveAllAbsent(t, "at");
    RemoveAllAbsent(t, "am");
    RemoveAllAbsent(t, "pm");
  }

  /** Hour text, a colon and minute text are left alone by the cleaning. */
  lemma TimeTextCleaned(h: string, m: string)
    requires NumberText(h) && NumberText(m)
    ensures Cleaned(h + ":" + m) == h + ":" + m
  {
    var t := h + ":" + m;
    assert TimeText(t);
    CleanedPlain(t);
  }

  /** Hour text, a colon and minute text split at the colon. */
  lemma TimeTextSplit(h: string, m: string)
    requires NumberText(h) && NumberText(m)
    ensures ':' in h + ":" + m
    ensures Split(h + ":" + m, ':') == [h, m]
  {
    var t := h + ":" + m;
    assert t[|h|] == ':';
    assert ':' !in h && ':' !in m;
    SplitTwo(h, ':', m);
  }

  /** Hour text, a colon and minute text parse to the two numbers. */
  lemma ParseHourColonMinute(h: string, m: string)
    requires NumberText(h) && NumberText(m)
    requires ParseInt(h).Some? && ParseInt(m).Some?
    ensures Cleaned(h + ":" + m) == h + ":" + m
    ensures ParseCleaned(h + ":" + m) == Some((ParseInt(h).value, ParseInt(m).value))
    ensures ParseTimeString(h + ":" + m) == Some((ParseInt(h).value, ParseInt(m).value))
  {
    TimeTextCleaned(h, m);
    TimeTextSplit(h, m);
  }

  /** A stored "HH:MM" time parses back to its hour and minute. */
  lemma FormatThenParse(hour: int, minute: int)
    ensures ParseTimeString(FormatTime(hour, minute)) == Some((hour, minute))
  {
    ParseTwoDigits(hour);
    ParseTwoDigits(minute);
    ParseHourColonMinute(TwoDigits(hour), TwoDigits(minute));
  }

  /** A bare hour parses to that hour and minute 0. */
  lemma BareHourParses(hour: nat)
    ensures ParseTimeString(Decimal(hour)) == Some((hour, 0))
  {
    var t := Decimal(hour);
    assert Cleaned(t) == t by {
      DecimalIsTimeText(hour);
      CleanedPlain(t);
    }
    assert ParseCleaned(t) == Some((hour, 0)) by {
      assert ':' !in t;
      ParseDecimal(hour);
    }
  }

  /** Lower-casing and trimming leave a time followed by "am" or "pm" alone. */
  lemma SuffixLowerStrip(t: string, suffix: string)
    requires TimeText(t)
    requires suffix == "am" || suffix == "pm"
    ensures Strip(Lower(t + suffix)) == t + suffix
  {
    var u := t + suffix;
    assert forall i :: 0 <= i < |u| ==> !('A' <= u[i] <= 'Z') && !IsSpace(u[i]);
    LowerNoCapitals(u);
    StripNoSpace(u);
  }

  /** Deleting "at", "am" and "pm" in turn removes a trailing "am" or "pm" from a time. */
  lemma SuffixRemoved(t: string, suffix: string)
    requires TimeText(t)
    requires suffix == "am" || suffix == "pm"
    ensures RemoveAll(RemoveAll(RemoveAll(t + suffix, "at"), "am"), "pm") == t
  {
    assert 'a' !in t && 'p' !in t;
    RemoveAllSkip(t, suffix, "at");
    SuffixDeletions(suffix);
    RemoveAllSkip(t, suffix, "am");
    if suffix == "am" {
      assert t + [] == t;
      RemoveAllAbsent(t, "pm");
    } else {
      RemoveAllSkip(t, suffix, "pm");
      assert t + [] == t;
    }
  }

  /** What each deletion does to the suffix itself. */
  lemma SuffixDeletions(suffix: string)
    requires suffix == "am" || suffix == "pm"
    ensures RemoveAll(suffix, "at") == suffix
    ensures RemoveAll(suffix, "am") == if suffix == "am" then [] else suffix
    ensures suffix == "pm" ==> RemoveAll(suffix, "pm") == []
  {
    assert suffix[..2] == suffix && suffix[2..] == [];
    assert suffix[1..] == ['m'];
    assert RemoveAll(['m'], "at") == ['m'] && RemoveAll(['m'], "am") == ['m'];
    assert suffix != "at";
    if suffix == "pm" {
      assert suffix != "am";
    }
  }

  /** A trailing "am" or "pm" is deleted by the cleaning. */
  lemma SuffixCleaned(t: string, suffix: string)
    requires TimeText(t)
    requires suffix == "am" || suffix == "pm"
    ensures Cleaned(t + suffix) == t
  {
    SuffixLowerStrip(t, suffix);
    SuffixRemoved(t, suffix);
    StripNoSpace(t);
  }

  /**
   * "am" and "pm" are deleted, not honoured: a time followed by either parses
   * as the time alone, so "9:00pm" is nine in the morning.
   */
  lemma SuffixIgnored(hour: int, minute: int, suffix: string)
    requires suffix == "am" || suffix == "pm"
    ensures ParseTimeString(FormatTime(hour, minute) + suffix) == Some((hour, minute))
  {
    SuffixCleaned(FormatTime(hour, minute), suffix);
    FormatThenParse(hour, minute);
    CleanedPlain(FormatTime(hour, minute));
  }

  /** A bare hour with "am" or "pm", such as "8am", is that hour and minute 0. */
  lemma BareHourSuffixIgnored(hour: nat, suffix: string)
    requires suffix == "am" || suffix == "pm"
    ensures ParseTimeString(Decimal(hour) + suffix) == Some((hour, 0))
  {
    var t := Decimal(hour);
    assert TimeText(t);
    SuffixCleaned(t, suffix);
    BareHourParses(hour);
    CleanedPlain(t);
  }

  // ---------------------------------------------------------------------------
  // A 12-hour reading of "am" and "pm"
  // ---------------------------------------------------------------------------

  predicate EndsWith(s: string, suffix: string) {
    |suffix| <= |s| && s[|s| - |suffix|..] == suffix
  }

  /**
   * `ParseTimeString` with the suffix honoured: "pm" moves hours 1..11 to the
   * afternoon and "12am" is midnight; everything else reads as before.
   */
  function ParseTimeOfDay(s: string): (r: Option<(int, int)>)
    ensures r.None? <==> ParseTimeString(s).None?
    ensures EndsWith(Strip(Lower(s)), "pm") && ParseTimeString(s).Some? && 1 <= ParseTimeString(s).value.0 <= 11
      ==> r == Some((ParseTimeString(s).value.0 + 12, ParseTimeString(s).value.1))
    ensures EndsWith(Strip(Lower(s)), "am") && !EndsWith(Strip(Lower(s)), "pm") && ParseTimeString(s).Some? && ParseTimeString(s).value.0 == 12
      ==> r == Some((0, ParseTimeString(s).value.1))
    ensures EndsWith(Strip(Lower(s)), "pm") && ParseTimeString(s).Some? && !(1 <= ParseTimeString(s).value.0 <= 11)
      ==> r == ParseTimeString(s)
    ensures EndsWith(Strip(Lower(s)), "am") && !EndsWith(Strip(Lower(s)), "pm") && ParseTimeString(s).Some? && ParseTimeString(s).value.0 != 12
      ==> r == ParseTimeString(s)
    ensures !EndsWith(Strip(Lower(s)), "am") && !EndsWith(Strip(Lower(s)), "pm") ==> r == ParseTimeString(s)
  {
    ApplySuffix(Strip(Lower(s)), ParseTimeString(s))
  }

  /** The twelve-hour adjustment of a parsed time `base` by the suffix of the lower-cased, stripped text `t`. */
  function ApplySuffix(t: string, base: Option<(int, int)>): (r: Option<(int, int)>)
    ensures r.None? <==> base.None?
    ensures EndsWith(t, "pm") && base.Some? && 1 <= base.value.0 <= 11 ==> r == Some((base.value.0 + 12, base.value.1))
    ensures EndsWith(t, "pm") && base.Some? && !(1 <= base.value.0 <= 11) ==> r == base
    ensures EndsWith(t, "am") && !EndsWith(t, "pm") && base.Some? && base.value.0 == 12 ==> r == Some((0, base.value.1))
    ensures EndsWith(t, "am") && !EndsWith(t, "pm") && base.Some? && base.value.0 != 12 ==> r == base
    ensures !EndsWith(t, "am") && !EndsWith(t, "pm") ==> r == base
  {
    if base.None? then None
    else if EndsWith(t, "pm") && 1 <= base.value.0 <= 11 then Some((base.value.0 + 12, base.value.1))
    else if EndsWith(t, "am") && base.value.0 == 12 then Some((0, base.value.1))
    else base
  }

  /** A time followed by "am" or "pm" is its own cleaned form and ends with that suffix. */
  lemma SuffixFacts(t: string, suffix: string)
    requires TimeText(t)
    requires suffix == "am" || suffix == "pm"
    ensures Strip(Lower(t + suffix)) == t + suffix
    ensures EndsWith(t + suffix, suffix)
    ensures suffix == "am" ==> !EndsWith(t + suffix, "pm")
  {
    SuffixLowerStrip(t, suffix);
    assert (t + suffix)[|t|..] == suffix;
  }

  /** "9:00pm" is 21:00: an afternoon hour with "pm" is moved on by twelve hours. */
  lemma PmIsAfternoon(hour: int, minute: int)
    requires 1 <= hour <= 11
    ensures ParseTimeOfDay(FormatTime(hour, minute) + "pm") == Some((hour + 12, minute))
  {
    var x := FormatTime(hour, minute) + "pm";
    assert ParseTimeString(x) == Some((hour, minute)) by {
      SuffixIgnored(hour, minute, "pm");
    }
    assert Strip(Lower(x)) == x && EndsWith(x, "pm") by {
      SuffixFacts(FormatTime(hour, minute), "pm");
    }
    PmShift(x, hour, minute);
  }

  /** "8pm" is 20:00. */
  lemma BarePmIsAfternoon(hour: nat)
    requires 1 <= hour <= 11
    ensures ParseTimeOfDay(Decimal(hour) + "pm") == Some((hour + 12, 0))
  {
    BareHourSuffixIgnored(hour, "pm");
    BarePmCleaned(hour);
    PmShift(Strip(Lower(Decimal(hour) + "pm")), hour, 0);
  }

  /** "Hpm" cleans to itself, which ends in "pm". */
  lemma BarePmCleaned(hour: nat)
    ensures EndsWith(Strip(Lower(Decimal(hour) + "pm")), "pm")
  {
    DecimalIsTimeText(hour);
    SuffixFacts(Decimal(hour), "pm");
  }

  /** After "pm", hours 1..11 move on by twelve hours. */
  lemma PmShift(t: string, hour: int, minute: int)
    requires EndsWith(t, "pm") && 1 <= hour <= 11
    ensures ApplySuffix(t, Some((hour, minute))) == Some((hour + 12, minute))
  {
  }

  /** After "am", hour 12 is midnight. */
  lemma AmShift(t: string, minute: int)
    requires EndsWith(t, "am") && !EndsWith(t, "pm")
    ensures ApplySuffix(t, Some((12, minute))) == Some((0, minute))
  {
  }

  /** After "pm", hour 12 and hours outside 1..11 are kept. */
  lemma PmKeep(t: string, hour: int, minute: int)
    requires EndsWith(t, "pm") && !(1 <= hour <= 11)
    ensures ApplySuffix(t, Some((hour, minute))) == Some((hour, minute))
  {
  }

  /** After "am", every hour but 12 is kept. */
  lemma AmKeep(t: string, hour: int, minute: int)
    requires EndsWith(t, "am") && !EndsWith(t, "pm") && hour != 12
    ensures ApplySuffix(t, Some((hour, minute))) == Some((hour, minute))
  {
  }

  lemma DecimalIsTimeText(n: nat)
    ensures TimeText(Decimal(n))
  {
    assert AllDigits(Decimal(n));
  }

  /** "12:30am" is half past midnight. */
  lemma TwelveAmIsMidnight(minute: int)
    ensures ParseTimeOfDay(FormatTime(12, minute) + "am") == Some((0, minute))
  {
    var x := FormatTime(12, minute) + "am";
    assert ParseTimeString(x) == Some((12, minute)) by {
      SuffixIgnored(12, minute, "am");
    }
    assert Strip(Lower(x)) == x && EndsWith(x, "am") && !EndsWith(x, "pm") by {
      SuffixFacts(FormatTime(12, minute), "am");
    }
    AmShift(x, minute);
  }

  /** "8am" is 08:00: a morning hour with "am" is kept. */
  lemma BareAmKeepsHour(hour: nat)
    requires hour != 12
    ensures ParseTimeOfDay(Decimal(hour) + "am") == Some((hour, 0))
  {
    BareHourSuffixIgnored(hour, "am");
    BareAmCleaned(hour);
    AmKeep(Strip(Lower(Decimal(hour) + "am")), hour, 0);
  }

  /** "Ham" cleans to itself, which ends in "am" and not in "pm". */
  lemma BareAmCleaned(hour: nat)
    ensures EndsWith(Strip(Lower(Decimal(hour) + "am")), "am")
    ensures !EndsWith(Strip(Lower(Decimal(hour) + "am")), "pm")
  {
    DecimalIsTimeText(hour);
    SuffixFacts(Decimal(hour), "am");
  }

  /** "12:30pm" is half past noon: hour 12 with "pm" is kept. */
  lemma TwelvePmIsNoon(minute: int)
    ensures ParseTimeOfDay(FormatTime(12, minute) + "pm") == Some((12, minute))
  {
    var x := FormatTime(12, minute) + "pm";
    assert ParseTimeString(x) == Some((12, minute)) by {
      SuffixIgnored(12, minute, "pm");
    }
    assert Strip(Lower(x)) == x && EndsWith(x, "pm") by {
      SuffixFacts(FormatTime(12, minute), "pm");
    }
    PmKeep(x, 12, minute);
  }

  /** A stored "HH:MM" time, without a suffix, reads as before. */
  lemma PlainTimeUnchanged(hour: int, minute: int)
    ensures ParseTimeOfDay(FormatTime(hour, minute)) == Some((hour, minute))
  {
    var t := FormatTime(hour, minute);
    assert ParseTimeString(t) == Some((hour, minute)) by {
      FormatThenParse(hour, minute);
    }
    PlainTimeText(t);
  }

  /** Time text is its own cleaned form and carries no suffix. */
  lemma PlainTimeText(t: string)
    requires TimeText(t) && t != []
    ensures Strip(Lower(t)) == t
    ensures !EndsWith(t, "pm") && !EndsWith(t, "am")
  {
    assert forall i :: 0 <= i < |t| ==> !('A' <= t[i] <= 'Z') && !IsSpace(t[i]);
    LowerNoCapitals(t);
    StripNoSpace(t);
    NoSuffix(t);
  }

  lemma NoSuffix(t: string)
    requires t != [] && t[|t| - 1] != 'm'
    ensures !EndsWith(t, "pm") && !EndsWith(t, "am")
  {
    if |t| >= 2 {
      assert t[|t| - 2..][1] == t[|t| - 1];
    }
  }

  /** The cleaning never introduces a digit. */
  lemma CleanedKeepsNonDigits(s: string)
    requires forall i :: 0 <= i < |s| ==> !IsDigit(s[i])
    ensures forall i :: 0 <= i < |Cleaned(s)| ==> !IsDigit(Cleaned(s)[i])
  {
    var low := Lower(s);
    assert forall i :: 0 <= i < |low| ==> !IsDigit(low[i]);
    var t := Cleaned(s);
    forall i | 0 <= i < |t|
      ensures !IsDigit(t[i])
    {
      assert t[i] in t;
    }
  }

  /** Text without any digit never parses. */
  lemma NonNumericRejected(s: string)
    requires forall i :: 0 <= i < |s| ==> !IsDigit(s[i])
    ensures ParseTimeString(s) == None
  {
    CleanedKeepsNonDigits(s);
    CleanedNonNumericRejected(Cleaned(s));
  }

  lemma CleanedNonNumericRejected(t: string)
    requires forall i :: 0 <= i < |t| ==> !IsDigit(t[i])
    ensures ParseCleaned(t) == None
  {
    if ':' in t {
      var first := Split(t, ':')[0];
      SplitPieces(t, ':');
      forall i | 0 <= i < |first|
        ensures !IsDigit(first[i])
      {
        assert first[i] in first;
        assert first[i] in t;
        var j :| 0 <= j < |t| && t[j] == first[i];
      }
      ParseIntRejectsNonNumeric(first);
    } else {
      ParseIntRejectsNonNumeric(t);
    }
  }

  // ---------------------------------------------------------------------------
  // The store
  // ---------------------------------------------------------------------------

  predicate NoDuplicates<T(==)>(s: seq<T>) {
    forall i, j :: 0 <= i < j < |s| ==> s[i] != s[j]
  }

  /** The users of `users`, in order, whose reminders are on and include `t`. */
  function Due(users: seq<UserId>, settings: map<UserId, ReminderSettings>, t: string): (r: seq<UserId>)
    requires forall i :: 0 <= i < |users| ==> users[i] in settings
    ensures |r| <= |users|
  {
    if users == [] then []
    else
      var rest := Due(users[1..], settings, t);
      var u := users[0];
      if settings[u].enabled && t in settings[u].times then [u] + rest else rest
  }

  /** A user is due exactly when listed, switched on and holding the time. */
  lemma {:induction false} DueMembers(users: seq<UserId>, settings: map<UserId, ReminderSettings>, t: string)
    requires forall i :: 0 <= i < |users| ==> users[i] in settings
    ensures forall u :: u in Due(users, settings, t) <==> u in users && settings[u].enabled && t in settings[u].times
    decreases |users|
  {
    if users != [] {
      DueMembers(users[1..], settings, t);
      assert forall u :: u in users <==> u == users[0] || u in users[1..];
    }
  }

  /** One more user considered by `Due`. */
  lemma DueStep(users: seq<UserId>, settings: map<UserId, ReminderSettings>, t: string, i: int)
    requires forall i :: 0 <= i < |users| ==> users[i] in settings
    requires 0 <= i < |users|
    ensures Due(users[i..], settings, t)
      == (if settings[users[i]].enabled && t in settings[users[i]].times then [users[i]] else [])
         + Due(users[i + 1..], settings, t)
  {
    assert users[i..][1..] == users[i + 1..];
  }

  /** The loop of `get_users_to_remind`: scans the users in order. */
  method CollectDue(users: seq<UserId>, settings: map<UserId, ReminderSettings>, t: string) returns (due: seq<UserId>)
    requires forall i :: 0 <= i < |users| ==> users[i] in settings
    ensures due == Due(users, settings, t)
  {
    due := [];
    var i := 0;
    while i < |users|
      invariant 0 <= i <= |users|
      invariant due + Due(users[i..], settings, t) == Due(users, settings, t)
    {
      var u := users[i];
      DueStep(users, settings, t, i);
      var s := settings[u];
      if s.enabled && t in s.times {
        assert (due + [u]) + Due(users[i + 1..], settings, t) == due + ([u] + Due(users[i + 1..], settings, t));
        due := due + [u];
      }
      i := i + 1;
    }
    assert due + [] == due;
  }

  /** `users` lists the keys of `m`, each once, and every user's times are sorted. */
  ghost predicate Consistent(users: seq<UserId>, m: map<UserId, ReminderSettings>) {
    && (forall u :: u in m ==> u in users)
    && (forall i :: 0 <= i < |users| ==> users[i] in m)
    && NoDuplicates(users)
    && (forall u :: u in m ==> SortedTimes(m[u].times))
  }

  /** Storing sorted settings for `user` keeps the store consistent; a new key goes last. */
  lemma Stored(users: seq<UserId>, m: map<UserId, ReminderSettings>, user: UserId, s: ReminderSettings)
    requires Consistent(users, m) && SortedTimes(s.times)
    ensures Consistent(if user in m then users else users + [user], m[user := s])
  {
  }

  /** The contents of `reminders.json`. */
  class ReminderStore {
    var reminders: map<UserId, ReminderSettings>
    /** The insertion order of the keys of `reminders`. */
    var users: seq<UserId>

    ghost predicate Valid()
      reads this
    {
      Consistent(users, reminders)
    }

    constructor ()
      ensures Valid()
      ensures reminders == map[] && users == []
    {
      reminders := map[];
      users := [];
    }

    /** `get_user_reminders`: the stored settings, or off with no times. */
    function GetUserReminders(user: UserId): (r: ReminderSettings)
      reads this
      ensures user in reminders ==> r == reminders[user]
      ensures user !in reminders ==> r == NoReminders
    {
      if user in reminders then reminders[user] else NoReminders
    }

    /** The key order after `user` gets an entry. */
    function UsersWith(user: UserId): seq<UserId>
      reads this
    {
      if user in reminders then users else users + [user]
    }

    /**
     * `set_reminder`: adds the formatted time to the user's sorted times (if
     * absent) and switches reminders on; a new user starts with no times.
     */
    method SetReminder(user: UserId, hour: int, minute: int)
      requires Valid()
      modifies this
      ensures Valid()
      ensures reminders == old(reminders)[user :=
        ReminderSettings(true, AddTime(FormatTime(hour, minute), old(GetUserReminders(user)).times))]
      ensures users == old(UsersWith(user))
      ensures user in Due(users, reminders, FormatTime(hour, minute))
    {
      var t := FormatTime(hour, minute);
      var times := GetUserReminders(user).times;
      if t !in times {
        times := InsertTime(t, times);
      }
      var settings := ReminderSettings(true, times);
      Stored(users, reminders, user, settings);
      users := UsersWith(user);
      reminders := reminders[user := settings];
      DueMembers(users, reminders, t);
    }

    /**
     * `remove_reminder`: deletes the formatted time and returns true when the
     * user has it; otherwise returns false and changes nothing.
     */
    method RemoveReminder(user: UserId, hour: int, minute: int) returns (removed: bool)
      requires Valid()
      modifies this
      ensures Valid()
      ensures removed <==> FormatTime(hour, minute) in old(GetUserReminders(user)).times
      ensures removed ==> reminders == old(reminders)[user :=
        old(reminders)[user].(times := RemoveTime(FormatTime(hour, minute), old(reminders)[user].times))]
      ensures !removed ==> reminders == old(reminders)
      ensures users == old(users)
      ensures FormatTime(hour, minute) !in GetUserReminders(user).times
    {
      if user !in reminders {
        return false;
      }
      var t := FormatTime(hour, minute);
      var s := reminders[user];
      if t in s.times {
        RemoveTimeKeepsSorted(t, s.times);
        reminders := reminders[user := s.(times := RemoveTime(t, s.times))];
        return true;
      }
      return false;
    }

    /** `disable_reminders`: the flag goes off and the times stay. */
    method DisableReminders(user: UserId)
      requires Valid()
      modifies this
      ensures Valid()
      ensures reminders == old(reminders)[user := old(GetUserReminders(user)).(enabled := false)]
      ensures users == old(UsersWith(user))
      ensures forall t :: user !in Due(users, reminders, t)
    {
      if user !in reminders {
        reminders := reminders[user := ReminderSettings(false, [])];
        users := users + [user];
      } else {
        reminders := reminders[user := reminders[user].(enabled := false)];
      }
      forall t
        ensures user !in Due(users, reminders, t)
      {
        DueMembers(users, reminders, t);
      }
    }

    /** `enable_reminders`: the flag goes on and the times stay. */
    method EnableReminders(user: UserId)
      requires Valid()
      modifies this
      ensures Valid()
      ensures reminders == old(reminders)[user := old(GetUserReminders(user)).(enabled := true)]
      ensures users == old(UsersWith(user))
    {
      if user !in reminders {
        reminders := reminders[user := ReminderSettings(true, [])];
        users := users + [user];
      } else {
        reminders := reminders[user := reminders[user].(enabled := true)];
      }
    }

    /**
     * `get_users_to_remind`: in key order, the users whose reminders are on
     * and whose times include the formatted time.
     */
    method GetUsersToRemind(hour: int, minute: int) returns (due: seq<UserId>)
      requires Valid()
      ensures due == Due(users, reminders, FormatTime(hour, minute))
      ensures forall u :: u in due <==> u in reminders && reminders[u].enabled && FormatTime(hour, minute) in reminders[u].times
    {
      var t := FormatTime(hour, minute);
      due := CollectDue(users, reminders, t);
      DueMembers(users, reminders, t);
    }
  }
}
