/** The decision rules inside the bot's event handlers, lifted out of the
    handlers: the privileged-role gate, the team-mention lookup, the deadline
    check and reformat, the completed-title rewrite and the thread name. */
module BotRules {
  import opened Text
  import opened Database

  // ---------------------------------------------------------------- configuration

  type RoleId = int

  /** The roles allowed to update, delete and export tickets. */
  const PmRoleIds: seq<RoleId> := [1337140702718595172]

  /** Role mentions announced when a ticket is assigned to a team. */
  const TeamMentions: map<string, string> := map[
    "Design Team" := "<@&123456789012345678>",
    "Development Team" := "<@&123456789012345679>",
    "Voice Team" := "<@&123456789012345680>",
    "Content Team" := "<@&123456789012345681>"
  ]

  // ---------------------------------------------------------------- role gate

  /** `any(role.id in PM_ROLE_IDS for role in member.roles)`. */
  function HasPmRole(roles: seq<RoleId>): (b: bool)
    ensures b <==> exists i :: 0 <= i < |roles| && roles[i] in PmRoleIds
  {
    if roles == [] then false
    else if roles[0] in PmRoleIds then true
    else
      var rest := HasPmRole(roles[1..]);
      assert rest <==> exists i :: 0 <= i < |roles| - 1 && roles[1..][i] in PmRoleIds;
      assert forall i :: 0 < i < |roles| ==> roles[i] == roles[1..][i - 1];
      rest
  }

  // ---------------------------------------------------------------- mention lookup

  /** `TEAM_MENTION_MAP.get(team, "")`: a known team's mention, else nothing. */
  function Mention(team: string): (m: string)
    ensures team in TeamMentions ==> m == TeamMentions[team]
    ensures m == "" <==> team !in TeamMentions
  {
    if team in TeamMentions then TeamMentions[team] else ""
  }

  // ---------------------------------------------------------------- deadline

  datatype Date = Date(day: nat, month: nat, year: nat)

  predicate IsLeapYear(y: nat) {
    y % 4 == 0 && (y % 100 != 0 || y % 400 == 0)
  }

  function DaysInMonth(y: nat, m: nat): (n: nat)
    requires 1 <= m <= 12
    ensures 28 <= n <= 31
  {
    if m == 2 then (if IsLeapYear(y) then 29 else 28)
    else if m == 4 || m == 6 || m == 9 || m == 11 then 30
    else 31
  }

  /** A calendar date the platform's date type can hold (years 1 to 9999,
      proleptic Gregorian calendar). */
  predicate ValidDate(d: Date) {
    1 <= d.year <= 9999 && 1 <= d.month <= 12 && 1 <= d.day <= DaysInMonth(d.year, d.month)
  }

  predicate NumberToken(p: string, minLen: nat, maxLen: nat) {
    minLen <= |p| <= maxLen && AllDigits(p)
  }

  /** `%d` reads one or two digits, or a space and one digit. */
  predicate DayToken(p: string) {
    NumberToken(p, 1, 2) || (|p| == 2 && p[0] == ' ' && IsDigit(p[1]))
  }

  function DayValue(p: string): nat
    requires DayToken(p)
  {
    if p[0] == ' ' then DigitValue(p[1]) else Value(p)
  }

  /** `strptime(s, "%d-%m-%Y")`: a day field, a month field of one or two
      digits and a year of exactly four digits, separated by '-', with nothing
      else in the string, denoting an existing calendar date. None stands for
      the ValueError it raises otherwise. */
  function ParseDeadline(s: string): (r: Option<Date>)
    ensures r.Some? ==> ValidDate(r.value)
  {
    var parts := Split(s, '-');
    if |parts| == 3 && DayToken(parts[0]) && NumberToken(parts[1], 1, 2) && NumberToken(parts[2], 4, 4) then
      var d := Date(DayValue(parts[0]), Value(parts[1]), Value(parts[2]));
      if ValidDate(d) then Some(d) else None
    else None
  }

  function MonthAbbr(m: nat): (a: string)
    requires 1 <= m <= 12
    ensures |a| == 3
  {
    ["Jan", "Feb", "Mar", "Apr", "May", "Jun", "Jul", "Aug", "Sep", "Oct", "Nov", "Dec"][m - 1]
  }

  /** `strftime("%d %b %Y")`. */
  function FormatDate(d: Date): (s: string)
    requires ValidDate(d)
    ensures |s| == 11 && s[2] == ' ' && s[6] == ' '
    ensures s[3..6] == MonthAbbr(d.month)
    ensures AllDigits(s[..2]) && Value(s[..2]) == d.day
    ensures AllDigits(s[7..]) && Value(s[7..]) == d.year
  {
    var dd, yyyy := Decimal(d.day, 2), Decimal(d.year, 4);
    DecimalDenotes(d.day, 2);
    DecimalExactWidth(d.day, 2);
    DecimalDenotes(d.year, 4);
    DecimalExactWidth(d.year, 4);
    var s := dd + " " + MonthAbbr(d.month) + " " + yyyy;
    assert s[..2] == dd && s[7..] == yyyy;
    s
  }

  /** The deadline gate of the update form: the stored text for an accepted
      deadline, None for one the form rejects. */
  function ReformatDeadline(s: string): (r: Option<string>)
    ensures r.Some? <==> ParseDeadline(s).Some?
    ensures r.Some? ==> r.value == FormatDate(ParseDeadline(s).value)
  {
    match ParseDeadline(s)
    case None => None
    case Some(d) => Some(FormatDate(d))
  }

  /** The DD-MM-YYYY text of a date. */
  function NumericText(d: Date): string {
    Decimal(d.day, 2) + "-" + Decimal(d.month, 2) + "-" + Decimal(d.year, 4)
  }

  lemma NoDashInDigits(s: string)
    requires AllDigits(s)
    ensures '-' !in s
  {
  }

  /** The gate reads exactly three '-'-separated fields of the shapes `%d`,
      `%m` and `%Y` accept, and accepts them when they name an existing date. */
  lemma ParseFields(dd: string, mm: string, yyyy: string)
    requires DayToken(dd) && NumberToken(mm, 1, 2) && NumberToken(yyyy, 4, 4)
    ensures var d := Date(DayValue(dd), Value(mm), Value(yyyy));
      ParseDeadline(dd + "-" + mm + "-" + yyyy) == if ValidDate(d) then Some(d) else None
  {
    assert '-' !in dd by {
      forall i | 0 <= i < |dd| ensures dd[i] != '-' {
        if !NumberToken(dd, 1, 2) { assert i == 0 || IsDigit(dd[i]); }
        else { assert IsDigit(dd[i]); }
      }
    }
    NoDashInDigits(mm);
    NoDashInDigits(yyyy);
    assert dd + "-" + mm + "-" + yyyy == dd + ['-'] + (mm + ['-'] + yyyy);
    SplitAfterPiece(dd, '-', mm + ['-'] + yyyy);
    SplitAfterPiece(mm, '-', yyyy);
    SplitWhole(yyyy, '-');
    assert Split(dd + "-" + mm + "-" + yyyy, '-') == [dd, mm, yyyy];
  }

  /** Every existing date written DD-MM-YYYY passes the gate and reads back as itself. */
  lemma ParseNumericText(d: Date)
    requires ValidDate(d)
    ensures ParseDeadline(NumericText(d)) == Some(d)
  {
    var dd, mm, yyyy := Decimal(d.day, 2), Decimal(d.month, 2), Decimal(d.year, 4);
    DecimalDenotes(d.day, 2);
    DecimalExactWidth(d.day, 2);
    DecimalDenotes(d.month, 2);
    DecimalExactWidth(d.month, 2);
    DecimalDenotes(d.year, 4);
    DecimalExactWidth(d.year, 4);
    assert dd[0] != ' ';
    ParseFields(dd, mm, yyyy);
  }

  /** The converse of `ParseFields`: the gate accepts nothing but three
      '-'-separated fields of those shapes, read as day, month and year. */
  lemma ParseDeadlineShape(s: string)
    ensures ParseDeadline(s).Some? ==>
      exists dd, mm, yyyy :: DayToken(dd) && NumberToken(mm, 1, 2) && NumberToken(yyyy, 4, 4) &&
        s == dd + "-" + mm + "-" + yyyy && ParseDeadline(s).value == Date(DayValue(dd), Value(mm), Value(yyyy))
  {
    var p := Split(s, '-');
    if ParseDeadline(s).Some? {
      SplitThree(s, '-');
      assert s == p[0] + "-" + p[1] + "-" + p[2];
    }
  }

  /** Text in another shape is rejected: year first, another separator, or
      anything after the year. */
  lemma MalformedDeadlines(a: string, b: string, c: string)
    requires a == "2025-04-25" && b == "25/04/2025" && c == "25-04-2025 "
    ensures ReformatDeadline(a) == None && ReformatDeadline(b) == None && ReformatDeadline(c) == None
  {
    assert ParseDeadline(a) == None by {
      assert a == "2025" + ['-'] + ("04" + ['-'] + "25");
      SplitAfterPiece("2025", '-', "04" + ['-'] + "25");
      SplitAfterPiece("04", '-', "25");
      SplitWhole("25", '-');
      assert Split(a, '-')[0] == "2025";
    }
    assert ParseDeadline(b) == None by {
      SplitWhole(b, '-');
    }
    assert ParseDeadline(c) == None by {
      assert c == "25" + ['-'] + ("04" + ['-'] + "2025 ");
      SplitAfterPiece("25", '-', "04" + ['-'] + "2025 ");
      SplitAfterPiece("04", '-', "2025 ");
      SplitWhole("2025 ", '-');
      assert Split(c, '-')[2] == "2025 ";
    }
  }

  /** The stored deadline text loses nothing: different dates are stored differently. */
  lemma FormatDateInjective(a: Date, b: Date)
    requires ValidDate(a) && ValidDate(b)
    requires FormatDate(a) == FormatDate(b)
    ensures a == b
  {
  }

  lemma Value1(s: string)
    requires |s| == 1 && AllDigits(s)
    ensures Value(s) == DigitValue(s[0])
  {
  }

  lemma Value2(s: string)
    requires |s| == 2 && AllDigits(s)
    ensures Value(s) == DigitValue(s[0]) * 10 + DigitValue(s[1])
  {
    Value1(s[..1]);
  }

  lemma Value4(s: string)
    requires |s| == 4 && AllDigits(s)
    ensures Value(s) == DigitValue(s[0]) * 1000 + DigitValue(s[1]) * 100 + DigitValue(s[2]) * 10 + DigitValue(s[3])
  {
    assert s[..3][..2] == s[..2];
    Value2(s[..2]);
  }

  /** The example of the update form's placeholder. */
  lemma PlaceholderDeadline(s: string)
    requires s == "25-04-2025"
    ensures ReformatDeadline(s) == Some("25 Apr 2025")
  {
    assert ParseDeadline(s) == Some(Date(25, 4, 2025)) by {
      assert s == "25" + "-" + "04" + "-" + "2025";
      Value2("25");
      Value2("04");
      Value4("2025");
      ParseFields("25", "04", "2025");
    }
    assert FormatDate(Date(25, 4, 2025)) == "25 Apr 2025" by {
      assert Decimal(25, 2) == Decimal(2, 1) + [DigitChar(5)];
      Year2025();
    }
  }

  lemma Year2025()
    ensures Decimal(2025, 4) == "2025"
  {
    assert Decimal(2025, 4) == Decimal(202, 3) + [DigitChar(5)];
    assert Decimal(202, 3) == Decimal(20, 2) + [DigitChar(2)];
    assert Decimal(20, 2) == Decimal(2, 1) + [DigitChar(0)];
  }

  /** One-digit day and month fields are accepted and padded when stored. */
  lemma SingleDigitFields(s: string)
    requires s == "5-4-2025"
    ensures ReformatDeadline(s) == Some("05 Apr 2025")
  {
    assert ParseDeadline(s) == Some(Date(5, 4, 2025)) by {
      assert s == "5" + "-" + "4" + "-" + "2025";
      Value1("5");
      Value1("4");
      Value4("2025");
      ParseFields("5", "4", "2025");
    }
    assert FormatDate(Date(5, 4, 2025)) == "05 Apr 2025" by {
      assert Decimal(5, 2) == Decimal(0, 1) + [DigitChar(5)];
      Year2025();
    }
  }

  /** A day past the end of its month is rejected, whatever the field widths. */
  lemma DayPastMonthEnd(a: string, b: string)
    requires a == "31-2-2025" && b == "29-02-2025"
    ensures ReformatDeadline(a) == None && ReformatDeadline(b) == None
  {
    assert ParseDeadline(a) == None by {
      assert a == "31" + "-" + "2" + "-" + "2025";
      Value2("31");
      Value1("2");
      Value4("2025");
      ParseFields("31", "2", "2025");
    }
    assert ParseDeadline(b) == None by {
      assert b == "29" + "-" + "02" + "-" + "2025";
      Value2("29");
      Value2("02");
      Value4("2025");
      ParseFields("29", "02", "2025");
    }
  }

  /** The 29th of February exists in a leap year. */
  lemma LeapDay(s: string)
    requires s == "29-02-2024"
    ensures ReformatDeadline(s) == Some("29 Feb 2024")
  {
    assert ParseDeadline(s) == Some(Date(29, 2, 2024)) by {
      assert s == "29" + "-" + "02" + "-" + "2024";
      Value2("29");
      Value2("02");
      Value4("2024");
      ParseFields("29", "02", "2024");
    }
    assert FormatDate(Date(29, 2, 2024)) == "29 Feb 2024" by {
      assert Decimal(29, 2) == Decimal(2, 1) + [DigitChar(9)];
      assert Decimal(2024, 4) == Decimal(202, 3) + [DigitChar(4)];
      assert Decimal(202, 3) == Decimal(20, 2) + [DigitChar(2)];
      assert Decimal(20, 2) == Decimal(2, 1) + [DigitChar(0)];
    }
  }

  // ---------------------------------------------------------------- completed title

  const CompletedMark := "\U{2705} Completed"
  const CompletedPrefix := "\U{2705} Completed Ticket: "
  const InboxMark := "\U{1F4E9}"

  /** The title a new ticket's panel gets. */
  function NewTicketTitle(title: string): (r: string)
    ensures StartsWith(r, InboxMark + " ")
    ensures Drop(r, 2) == "New Ticket: " + title
  {
    var r := InboxMark + " New Ticket: " + title;
    assert r[2..] == "New Ticket: " + title;
    r
  }

  /** The panel title after "Mark as Completed". */
  function CompletedTitle(title: string): (r: string)
    ensures StartsWith(r, CompletedMark)
    ensures StartsWith(title, CompletedMark) ==> r == title
    ensures !StartsWith(title, CompletedMark) && StartsWith(title, InboxMark) ==> r == CompletedPrefix + Drop(title, 2)
    ensures !StartsWith(title, CompletedMark) && !StartsWith(title, InboxMark) ==> r == CompletedPrefix + title
  {
    if StartsWith(title, CompletedMark) then title
    else
      var r := CompletedPrefix + (if StartsWith(title, InboxMark) then Drop(title, 2) else title);
      assert r[..|CompletedMark|] == CompletedMark;
      r
  }

  /** Pressing "Mark as Completed" again leaves the title alone. */
  lemma CompletedTitleIdempotent(title: string)
    ensures CompletedTitle(CompletedTitle(title)) == CompletedTitle(title)
  {
  }

  /** A new ticket's panel loses its inbox emoji and the space after it. */
  lemma CompletedNewTicketTitle(title: string)
    ensures CompletedTitle(NewTicketTitle(title)) == CompletedPrefix + "New Ticket: " + title
  {
    var t := NewTicketTitle(title);
    assert t[0] == '\U{1F4E9}';
    assert !StartsWith(t, CompletedMark) by {
      assert CompletedMark[0] == '\U{2705}';
    }
    assert StartsWith(t, InboxMark);
    assert t[2..] == "New Ticket: " + title;
  }

  // ---------------------------------------------------------------- thread name

  /** The longest run of digits at the start of `s`. */
  function LeadingDigits(s: string): (r: string)
    ensures AllDigits(r) && |r| <= |s| && s[..|r|] == r
    ensures |r| < |s| ==> !IsDigit(s[|r|])
  {
    if s != [] && IsDigit(s[0]) then [s[0]] + LeadingDigits(s[1..]) else []
  }

  lemma {:induction false} LeadingDigitsOf(a: string, b: string)
    requires AllDigits(a) && (b == [] || !IsDigit(b[0]))
    ensures LeadingDigits(a + b) == a
  {
    if a == [] {
      assert a + b == b;
    } else {
      assert (a + b)[1..] == a[1..] + b;
      LeadingDigitsOf(a[1..], b);
    }
  }

  /** Reads the counter and the title part back out of a thread name. */
  function ReadThreadName(name: string): Option<(nat, string)> {
    if StartsWith(name, "ticket-") then
      var digits := LeadingDigits(name[7..]);
      var rest := name[7 + |digits|..];
      if StartsWith(rest, " | ") then Some((Value(digits), rest[3..])) else None
    else None
  }

  /** A name built from a run of digits and a title part reads back as both. */
  lemma ReadThreadNameOf(digits: string, part: string)
    requires AllDigits(digits)
    ensures ReadThreadName("ticket-" + digits + " | " + part) == Some((Value(digits), part))
  {
    var tail := " | " + part;
    var name := "ticket-" + (digits + tail);
    assert name == "ticket-" + digits + " | " + part;
    assert StartsWith(name, "ticket-") && name[7..] == digits + tail by {
      assert name[..7] == "ticket-";
    }
    assert LeadingDigits(name[7..]) == digits by {
      LeadingDigitsOf(digits, tail);
    }
    assert name[7 + |digits|..] == tail by {
      assert (digits + tail)[|digits|..] == tail;
    }
    assert StartsWith(tail, " | ") && tail[3..] == part;
  }

  /** `f"ticket-{ticket_counter:04d} | {title[:30]}"`. */
  function ThreadName(counter: nat, title: string): (name: string)
    ensures StartsWith(name, "ticket-")
  {
    var name := "ticket-" + Decimal(counter, 4) + " | " + Take(title, 30);
    assert name[..7] == "ticket-";
    name
  }

  /** The name carries the counter, padded to at least four digits, and the
      first 30 characters of the title, and both can be read back. */
  lemma ThreadNameReadsBack(counter: nat, title: string)
    ensures |LeadingDigits(ThreadName(counter, title)[7..])| >= 4
    ensures ReadThreadName(ThreadName(counter, title)) == Some((counter, Take(title, 30)))
  {
    var digits, part := Decimal(counter, 4), Take(title, 30);
    DecimalDenotes(counter, 4);
    ReadThreadNameOf(digits, part);
    var name := ThreadName(counter, title);
    assert name[7..] == digits + (" | " + part);
    LeadingDigitsOf(digits, " | " + part);
  }

  /** Two tickets submitted under different counter values get different thread names. */
  lemma ThreadNamesDistinct(c1: nat, t1: string, c2: nat, t2: string)
    requires c1 != c2
    ensures ThreadName(c1, t1) != ThreadName(c2, t2)
  {
    ThreadNameReadsBack(c1, t1);
    ThreadNameReadsBack(c2, t2);
  }
}
