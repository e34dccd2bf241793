/**
 * The decision logic of the bot's handlers (telegram/bot.py): which
 * encouragement a day gets, how `/day` validates its argument, and how a
 * free-text message is classified. Sending replies is not modelled; the
 * handlers' outcomes are values.
 */
module Bot {
  import opened Wrappers
  import Text

  /** The encouragement list of `get_encouragement`, in its own order. */
  const Encouragements: seq<string> := [
    "Remember, God's love for you is unchanging and eternal. Trust in His plan for your life today!",
    "You are never alone. God is with you every step of the way, guiding and protecting you.",
    "Each new day is a gift from God. Embrace it with gratitude and faith!",
    "Your strength comes from the Lord. Lean on Him when you feel weak.",
    "God's grace is sufficient for you. His power is made perfect in weakness.",
    "Keep your eyes fixed on Jesus. He is the author and perfecter of your faith.",
    "Don't worry about tomorrow. God is already there, preparing the way for you.",
    "You are fearfully and wonderfully made. God has a unique purpose for your life.",
    "In every situation, give thanks. God is working all things together for your good.",
    "Stand firm in your faith. The Lord is your shield and your strength.",
    "Let your light shine today. You are a reflection of God's love to others.",
    "God's mercies are new every morning. Receive His fresh grace today!",
    "Cast all your anxiety on Him because He cares for you.",
    "The Lord will fight for you; you need only to be still.",
    "Seek first His kingdom and His righteousness, and all these things will be given to you."
  ]

  /**
   * The index `(day_number - 1) % len(encouragements)`. Python's `%` by a
   * positive divisor is never negative, like Dafny's, so days before 1 wrap
   * around too.
   */
  function EncouragementIndex(dayNumber: int): (r: nat)
    ensures r < |Encouragements| == 15
  {
    (dayNumber - 1) % |Encouragements|
  }

  /** `get_encouragement`: the message for a day, cycling through the list. */
  function GetEncouragement(dayNumber: int): (r: string)
    ensures r in Encouragements
  {
    Encouragements[EncouragementIndex(dayNumber)]
  }

  /** Day 1 gets the first message, and days 1..15 get the messages in list order. */
  lemma FirstCycleInOrder(dayNumber: int)
    requires 1 <= dayNumber <= 15
    ensures EncouragementIndex(dayNumber) == dayNumber - 1
  {
  }

  /** Days that differ by a multiple of 15 get the same message. */
  lemma {:induction false} EncouragementIsPeriodic(dayNumber: int, k: nat)
    ensures EncouragementIndex(dayNumber + 15 * k) == EncouragementIndex(dayNumber)
    ensures EncouragementIndex(dayNumber - 15 * k) == EncouragementIndex(dayNumber)
  {
    if k > 0 {
      EncouragementIsPeriodic(dayNumber, k - 1);
      assert dayNumber + 15 * k == dayNumber + 15 * (k - 1) + 15;
      assert dayNumber - 15 * k == dayNumber - 15 * (k - 1) - 15;
    }
  }

  /** The reply to `/day`. */
  datatype DayReply =
    | ReadingForDay(day: int)
    | OutOfRange         // "Please enter a day number between 1 and 365."
    | NotANumber         // "Please enter a valid day number (1-365)."

  /** `day_command`: `today` is the day of the year the clock reports. */
  function DayCommand(args: seq<string>, today: int): (r: DayReply)
    ensures args == [] ==> r == ReadingForDay(today)
    ensures args != [] && r.ReadingForDay? ==> 1 <= r.day <= 365 && Text.ParseInt(args[0]) == Some(r.day)
    ensures args != [] ==> (r == NotANumber <==> Text.ParseInt(args[0]) == None)
    ensures args != [] && Text.ParseInt(args[0]).Some? && 1 <= Text.ParseInt(args[0]).value <= 365 ==>
      r == ReadingForDay(Text.ParseInt(args[0]).value)
    ensures args != [] && Text.ParseInt(args[0]).Some? && !(1 <= Text.ParseInt(args[0]).value <= 365) ==>
      r == OutOfRange
  {
    if args == [] then ReadingForDay(today)
    else
      match Text.ParseInt(args[0])
      case None => NotANumber
      case Some(n) => if n < 1 || n > 365 then OutOfRange else ReadingForDay(n)
  }

  /** Every day of the plan can be asked for by its number. */
  lemma DayCommandAcceptsEveryDay(n: nat, rest: seq<string>, today: int)
    requires 1 <= n <= 365
    ensures DayCommand([Text.Decimal(n)] + rest, today) == ReadingForDay(n)
  {
    Text.ParseDecimal(n);
  }

  /** A number outside 1..365 is refused. */
  lemma DayCommandRejectsOutOfRange(n: nat, rest: seq<string>, today: int)
    requires n == 0 || n > 365
    ensures DayCommand([Text.Decimal(n)] + rest, today) == OutOfRange
  {
    Text.ParseDecimal(n);
  }

  /** A negative number is refused as out of range, not as malformed. */
  lemma DayCommandRejectsNegative(n: nat, rest: seq<string>, today: int)
    requires n > 0
    ensures DayCommand(["-" + Text.Decimal(n)] + rest, today) == OutOfRange
  {
    Text.ParseNegativeDecimal(n);
  }

  // ---------------------------------------------------------------------
  // Free-text queries: `re.search(r'\bday\s+(\d+)\b', text)` and the today words
  // ---------------------------------------------------------------------

  /** The number of leading decimal digits of `s`. */
  function LeadingDigits(s: string): (k: nat)
    ensures k <= |s| && (k == |s| || !Text.IsDigit(s[k]))
    ensures Text.AllDigits(s[..k])
  {
    if s != [] && Text.IsDigit(s[0]) then
      var k := 1 + LeadingDigits(s[1..]);
      assert forall i :: 1 <= i < k ==> s[..k][i] == s[1..][..k - 1][i - 1];
      k
    else 0
  }

  /** The regular expression does not continue a word: the text before `i` does not end in a word character. */
  predicate WordStart(t: string, i: int)
    requires 0 <= i <= |t|
  {
    i == 0 || !Text.IsWordChar(t[i - 1])
  }

  /**
   * The number captured after "day": at least one whitespace character, at
   * least one digit, and no word character straight after the digits.
   */
  function NumberAfterDay(rest: string): Option<nat> {
    var spaces := Text.LeadingSpaces(rest);
    var digits := LeadingDigits(rest[spaces..]);
    var after := rest[spaces + digits..];
    if spaces >= 1 && digits >= 1 && (after == [] || !Text.IsWordChar(after[0])) then
      assert rest[spaces..][..digits] == rest[spaces..spaces + digits];
      Some(Text.DigitsValue(rest[spaces..spaces + digits]))
    else None
  }

  /** The number captured by a match of the pattern starting at index `i`. */
  function DayMatchAt(t: string, i: nat): Option<nat>
    requires i <= |t|
  {
    if i + 3 <= |t| && t[i..i + 3] == "day" && WordStart(t, i) then NumberAfterDay(t[i + 3..])
    else None
  }

  /** The outcome of trying the pattern at every index of `t`. */
  function Attempts(t: string): (ms: seq<Option<nat>>)
    ensures |ms| == |t|
    ensures forall j :: 0 <= j < |t| ==> ms[j] == DayMatchAt(t, j)
  {
    seq(|t|, j requires 0 <= j < |t| => DayMatchAt(t, j))
  }

  /** The first successful attempt from index `i` on. */
  function FirstSome(ms: seq<Option<nat>>, i: nat): Option<nat>
    requires i <= |ms|
    decreases |ms| - i
  {
    if i == |ms| then None
    else if ms[i].Some? then ms[i]
    else FirstSome(ms, i + 1)
  }

  /** `re.search`: the match at the leftmost index where one starts. */
  function FirstDayMatch(t: string): Option<nat> {
    FirstSome(Attempts(t), 0)
  }

  /** The search finds something exactly when some attempt succeeds, and then it is the leftmost one. */
  lemma {:induction false} FirstSomeIsLeftmost(ms: seq<Option<nat>>, i: nat)
    requires i <= |ms|
    ensures FirstSome(ms, i).None? <==> forall j :: i <= j < |ms| ==> ms[j].None?
    ensures FirstSome(ms, i).Some? ==>
      exists j :: i <= j < |ms| && FirstSome(ms, i) == ms[j] && forall m :: i <= m < j ==> ms[m].None?
    decreases |ms| - i
  {
    if i < |ms| && ms[i].None? {
      FirstSomeIsLeftmost(ms, i + 1);
      if FirstSome(ms, i + 1).Some? {
        var j :| i + 1 <= j < |ms| && FirstSome(ms, i + 1) == ms[j] && forall m :: i + 1 <= m < j ==> ms[m].None?;
        assert forall m :: i <= m < j ==> ms[m].None?;
      }
    }
  }

  /** A text starting with "day" and a number reads back as that number. */
  lemma DayMatchAtStart(rest: string)
    ensures DayMatchAt("day" + rest, 0) == NumberAfterDay(rest)
  {
    var t := "day" + rest;
    assert t[0..3] == "day";
    assert t[3..] == rest;
  }

  /** A run of whitespace and a number read back as that number. */
  lemma NumberAfterDayOfDecimal(spaces: string, n: nat, after: string)
    requires |spaces| >= 1 && forall i :: 0 <= i < |spaces| ==> Text.IsSpace(spaces[i])
    requires after == [] || !Text.IsWordChar(after[0])
    ensures NumberAfterDay(spaces + Text.Decimal(n) + after) == Some(n)
  {
    var d := Text.Decimal(n);
    var rest := spaces + d + after;
    assert rest == spaces + (d + after);
    SpacesPrefix(spaces, d + after);
    assert rest[|spaces|..] == d + after;
    DigitsPrefix(d, after);
    assert rest[|spaces| + |d|..] == after;
    assert rest[|spaces|..|spaces| + |d|] == d;
    Text.DecimalValue(n);
  }

  lemma SpacesPrefix(spaces: string, s: string)
    requires forall i :: 0 <= i < |spaces| ==> Text.IsSpace(spaces[i])
    requires s != [] && Text.IsDigit(s[0])
    ensures Text.LeadingSpaces(spaces + s) == |spaces|
    decreases |spaces|
  {
    if spaces != [] {
      assert (spaces + s)[1..] == spaces[1..] + s;
      SpacesPrefix(spaces[1..], s);
    } else {
      assert spaces + s == s;
    }
  }

  lemma DigitsPrefix(d: string, after: string)
    requires Text.AllDigits(d)
    requires after == [] || !Text.IsWordChar(after[0])
    ensures LeadingDigits(d + after) == |d|
    decreases |d|
  {
    if d != [] {
      assert (d + after)[1..] == d[1..] + after;
      DigitsPrefix(d[1..], after);
    } else {
      assert d + after == after;
    }
  }

  /** The reply to a free-text message. */
  datatype QueryReply =
    | DayReading(day: int)
    | TodayReading
    | Help

  /** The words that ask for today's reading. */
  const TodayWords: seq<string> := ["today", "todays", "today's", "current", "now"]

  /** `any(word in text for word in [...])`. */
  predicate AsksForToday(t: string) {
    exists w :: w in TodayWords && Text.Contains(t, w)
  }

  /** Text containing "now" anywhere, even inside "know" or "snow", asks for today. */
  lemma NowInsideWord(before: string, after: string)
    ensures AsksForToday(before + "now" + after)
  {
    var t := before + "now" + after;
    assert Text.OccursAt("now", t, |before|) by {
      assert t[|before|..|before| + 3] == "now";
    }
    Text.ContainsMeansOccurs(t, "now");
    assert "now" in TodayWords;
  }

  /**
   * The classification of the cleaned text: a leftmost "day N" with N in
   * 1..365 wins; any other outcome of the day pattern falls through to the
   * today words; the rest gets the help text.
   */
  function Classify(t: string): (r: QueryReply)
    ensures r.DayReading? <==> exists n :: FirstDayMatch(t) == Some(n) && 1 <= n <= 365
    ensures r.DayReading? ==> FirstDayMatch(t) == Some(r.day)
    ensures r.TodayReading? ==> AsksForToday(t)
    ensures r.Help? ==> !AsksForToday(t)
  {
    var m := FirstDayMatch(t);
    if m.Some? && 1 <= m.value <= 365 then DayReading(m.value)
    else if AsksForToday(t) then TodayReading
    else Help
  }

  /** `handle_query`: the message is lower-cased and stripped, then classified. */
  function HandleQuery(message: string): (r: QueryReply)
    ensures r.DayReading? ==> 1 <= r.day <= 365
  {
    Classify(Text.Strip(Text.Lower(message)))
  }

  /** A message starting "day N", N in 1..365, asks for day N whatever follows a non-word character. */
  lemma DayQueryAnswered(spaces: string, n: nat, after: string)
    requires 1 <= n <= 365
    requires |spaces| >= 1 && forall i :: 0 <= i < |spaces| ==> Text.IsSpace(spaces[i])
    requires after == [] || !Text.IsWordChar(after[0])
    ensures Classify("day" + spaces + Text.Decimal(n) + after) == DayReading(n)
  {
    var rest := spaces + Text.Decimal(n) + after;
    var t := "day" + spaces + Text.Decimal(n) + after;
    assert FirstDayMatch(t) == Some(n) by {
      assert t == "day" + rest;
      DayMatchAtStart(rest);
      NumberAfterDayOfDecimal(spaces, n, after);
      assert Attempts(t)[0] == Some(n);
    }
  }
}
