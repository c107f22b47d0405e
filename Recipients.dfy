/** The report page's client-side state: the recipient list with its e-mail check, the
    weekly and monthly report settings with the subject formatter, and the sending history.
    Persistence in the browser's storage is not modelled; the clock (`Date.now()` and the
    ISO timestamp) and the locale date rendering enter as parameters. */
module Recipients {
  import opened Wrappers
  import Seqs
  import opened Text

  // ---------------------------------------------------------------- e-mail check

  predicate AsciiLetter(c: char)
  {
    'a' <= c <= 'z' || 'A' <= c <= 'Z'
  }

  predicate Digit(c: char)
  {
    '0' <= c <= '9'
  }

  /** `[a-zA-Z0-9._%+-]` */
  predicate LocalChar(c: char)
  {
    AsciiLetter(c) || Digit(c) || c == '.' || c == '_' || c == '%' || c == '+' || c == '-'
  }

  /** `[a-zA-Z0-9.-]` */
  predicate DomainChar(c: char)
  {
    AsciiLetter(c) || Digit(c) || c == '.' || c == '-'
  }

  /** The address splits as local part, `@` at `at`, domain, `.` at `dot`, and a top-level
      part of at least two letters, each part drawn from its character class. */
  predicate SplitsAt(s: string, at: int, dot: int)
  {
    && 0 < at && at + 1 < dot && dot + 2 < |s|
    && s[at] == '@' && s[dot] == '.'
    && (forall i | 0 <= i < at :: LocalChar(s[i]))
    && (forall i | at < i < dot :: DomainChar(s[i]))
    && (forall i | dot < i < |s| :: AsciiLetter(s[i]))
  }

  /** The whole address matches `^[a-zA-Z0-9._%+-]+@[a-zA-Z0-9.-]+\.[a-zA-Z]{2,}$`. */
  predicate MatchesEmailPattern(s: string)
  {
    exists at, dot | 0 <= at < |s| && 0 <= dot < |s| :: SplitsAt(s, at, dot)
  }

  /** The last position of `c` in `s`. */
  function LastIndexOf(s: string, c: char): (r: Option<nat>)
    ensures r.Some? ==> r.value < |s| && s[r.value] == c && forall j :: r.value < j < |s| ==> s[j] != c
    ensures r.None? <==> c !in s
  {
    if s == [] then None
    else if s[|s| - 1] == c then Some(|s| - 1)
    else
      var r := LastIndexOf(s[..|s| - 1], c);
      assert s == s[..|s| - 1] + [s[|s| - 1]];
      r
  }

  /** The only split the pattern can use is at the first `@` and the last `.`. */
  lemma SplitIsFirstAtLastDot(s: string, at: int, dot: int)
    requires SplitsAt(s, at, dot)
    ensures Seqs.FindFirst(s, (c: char) => c == '@') == Some(at)
    ensures LastIndexOf(s, '.') == Some(dot)
  {
    assert forall i | 0 <= i < at :: s[i] != '@';
    assert forall i | dot < i < |s| :: s[i] != '.';
    assert s[at] in s && s[dot] in s;
  }

  lemma PatternUsesFirstAtLastDot(s: string)
    ensures MatchesEmailPattern(s) ==>
      var at, dot := Seqs.FindFirst(s, (c: char) => c == '@'), LastIndexOf(s, '.');
      at.Some? && dot.Some? && SplitsAt(s, at.value, dot.value)
  {
    if MatchesEmailPattern(s) {
      var at, dot :| 0 <= at < |s| && 0 <= dot < |s| && SplitsAt(s, at, dot);
      SplitIsFirstAtLastDot(s, at, dot);
    }
  }

  /** `validateEmail`: locate the first `@` and the last `.` and check the three parts. */
  function ValidateEmail(email: string): (b: bool)
    ensures b <==> MatchesEmailPattern(email)
  {
    PatternUsesFirstAtLastDot(email);
    match (Seqs.FindFirst(email, (c: char) => c == '@'), LastIndexOf(email, '.'))
    case (Some(at), Some(dot)) => SplitsAt(email, at, dot)
    case _ => false
  }

  /** Every character of a valid address is ASCII, so ASCII lower-casing is exact on it. */
  lemma ValidEmailIsAscii(email: string)
    requires ValidateEmail(email)
    ensures forall i | 0 <= i < |email| :: email[i] < 128 as char
  {
  }

  // ---------------------------------------------------------------- recipients

  datatype Recipient = Recipient(id: int, email: string, active: bool, createdAt: string)

  const InvalidEmailMessage: string := "올바른 이메일 형식이 아닙니다."
  const DuplicateEmailMessage: string := "이미 등록된 이메일 주소입니다."
  const RecipientNotFoundMessage: string := "해당 수신자를 찾을 수 없습니다."

  datatype AddResult = Added(recipient: Recipient) | AddRejected(message: string)
  datatype ToggleResult = Toggled(active: bool) | ToggleRejected(message: string)
  datatype Outcome = Done | Failed(message: string)

  /** No two recipients share an address up to case. */
  predicate DistinctEmails(rs: seq<Recipient>)
  {
    forall i, j :: 0 <= i < |rs| && 0 <= j < |rs| && i != j ==> ToLower(rs[i].email) != ToLower(rs[j].email)
  }

  predicate SameEmail(a: string, b: string)
  {
    ToLower(a) == ToLower(b)
  }

  function RecipientIndex(rs: seq<Recipient>, id: int): (r: Option<nat>)
    ensures r.Some? ==> r.value < |rs| && rs[r.value].id == id
    ensures r.None? <==> forall x :: x in rs ==> x.id != id
  {
    Seqs.FindFirst(rs, (x: Recipient) => x.id == id)
  }

  /** Removing entries keeps addresses distinct. */
  lemma FilterKeepsDistinctEmails(rs: seq<Recipient>, keep: Recipient -> bool)
    requires DistinctEmails(rs)
    ensures DistinctEmails(Seqs.Filter(rs, keep))
  {
    var rel := (a: Recipient, b: Recipient) => ToLower(a.email) != ToLower(b.email);
    assert Seqs.Pairwise(rs, rel);
    Seqs.FilterKeepsPairwise(rs, keep, rel);
    var r := Seqs.Filter(rs, keep);
    forall i, j | 0 <= i < |r| && 0 <= j < |r| && i != j ensures ToLower(r[i].email) != ToLower(r[j].email) {
      if i < j { assert rel(r[i], r[j]); } else { assert rel(r[j], r[i]); }
    }
  }

  class RecipientManager {
    var recipients: seq<Recipient>

    constructor()
      ensures recipients == []
    {
      recipients := [];
    }

    /** `addRecipient`: refuse an invalid address, then one already listed up to case;
        otherwise append it, active, with the clock's id and timestamp. */
    method AddRecipient(email: string, now: int, nowIso: string) returns (r: AddResult)
      modifies this
      ensures !ValidateEmail(email) ==> r == AddRejected(InvalidEmailMessage) && recipients == old(recipients)
      ensures ValidateEmail(email) && (exists x :: x in old(recipients) && SameEmail(x.email, email)) ==>
        r == AddRejected(DuplicateEmailMessage) && recipients == old(recipients)
      ensures ValidateEmail(email) && (forall x :: x in old(recipients) ==> !SameEmail(x.email, email)) ==>
        r == Added(Recipient(now, email, true, nowIso)) && recipients == old(recipients) + [r.recipient]
      ensures DistinctEmails(old(recipients)) ==> DistinctEmails(recipients)
    {
      if !ValidateEmail(email) {
        return AddRejected(InvalidEmailMessage);
      }
      var duplicate := Seqs.FindFirst(recipients, (x: Recipient) => ToLower(x.email) == ToLower(email));
      if duplicate.Some? {
        assert recipients[duplicate.value] in recipients;
        return AddRejected(DuplicateEmailMessage);
      }
      var newRecipient := Recipient(now, email, true, nowIso);
      recipients := recipients + [newRecipient];
      r := Added(newRecipient);
      assert forall i :: 0 <= i < |recipients| - 1 ==> recipients[i] in old(recipients);
    }

    /** `toggleRecipientStatus`: flip the flag of the first recipient with the id. */
    method ToggleRecipientStatus(id: int) returns (r: ToggleResult)
      modifies this
      ensures RecipientIndex(old(recipients), id).None? ==>
        r == ToggleRejected(RecipientNotFoundMessage) && recipients == old(recipients)
      ensures RecipientIndex(old(recipients), id).Some? ==> var k := RecipientIndex(old(recipients), id).value;
        && recipients == old(recipients)[k := old(recipients)[k].(active := !old(recipients)[k].active)]
        && r == Toggled(recipients[k].active)
      ensures DistinctEmails(old(recipients)) ==> DistinctEmails(recipients)
    {
      var index := RecipientIndex(recipients, id);
      if index.None? {
        return ToggleRejected(RecipientNotFoundMessage);
      }
      var k := index.value;
      recipients := recipients[k := recipients[k].(active := !recipients[k].active)];
      r := Toggled(recipients[k].active);
    }

    /** `removeRecipient`: drop every recipient with the id; success iff the list shrank. */
    method RemoveRecipient(id: int) returns (r: Outcome)
      modifies this
      ensures recipients == Seqs.Filter(old(recipients), (x: Recipient) => x.id != id)
      ensures r.Done? <==> exists x :: x in old(recipients) && x.id == id
      ensures r.Failed? ==> r.message == RecipientNotFoundMessage
      ensures DistinctEmails(old(recipients)) ==> DistinctEmails(recipients)
    {
      var initialLength := |recipients|;
      if DistinctEmails(recipients) {
        FilterKeepsDistinctEmails(recipients, (x: Recipient) => x.id != id);
      }
      recipients := Seqs.Filter(recipients, (x: Recipient) => x.id != id);
      if initialLength != |recipients| {
        return Done;
      }
      return Failed(RecipientNotFoundMessage);
    }

    /** `getActiveRecipients`. */
    function GetActiveRecipients(): (r: seq<Recipient>)
      reads this
      ensures forall x :: x in r <==> x in recipients && x.active
      ensures |r| == |recipients| <==> forall x :: x in recipients ==> x.active
    {
      Seqs.Filter(recipients, (x: Recipient) => x.active)
    }
  }

  // ---------------------------------------------------------------- report settings

  datatype SettingValue = Number(n: int) | Str(s: string) | Flag(b: bool)

  /** One report type's settings object. */
  type Settings = map<string, SettingValue>

  /** Object spread `{...base, ...patch}`: every key of either, the patch's value winning. */
  function Merge(base: Settings, patch: Settings): (r: Settings)
    ensures r.Keys == base.Keys + patch.Keys
    ensures forall k :: k in patch ==> r[k] == patch[k]
    ensures forall k :: k in base && k !in patch ==> r[k] == base[k]
  {
    base + patch
  }

  /** Merging is idempotent: sending the same patch twice is sending it once. */
  lemma MergeIdempotent(base: Settings, patch: Settings)
    ensures Merge(Merge(base, patch), patch) == Merge(base, patch)
  {
  }

  const WeeklyDefaults: Settings := map[
    "day" := Number(5), "time" := Number(9),
    "subject" := Str("[DICD측정관리시스템] {date} 주간 보고서"), "active" := Flag(true)]

  const MonthlyDefaults: Settings := map[
    "date" := Number(5), "time" := Number(9),
    "subject" := Str("[DICD측정관리시스템] {date} 월간 보고서"), "active" := Flag(true)]

  const InvalidReportTypeMessage: string := "잘못된 보고서 유형입니다."

  datatype SettingsResult = Updated(settings: Settings) | SettingsRejected(message: string)

  class ReportSettingsManager {
    var weekly: Settings
    var monthly: Settings

    constructor()
      ensures weekly == WeeklyDefaults && monthly == MonthlyDefaults
    {
      weekly, monthly := WeeklyDefaults, MonthlyDefaults;
    }

    /** `updateSettings`: only "weekly" and "monthly" are accepted; the given keys are merged
        over that type's settings. */
    method UpdateSettings(reportType: string, settings: Settings) returns (r: SettingsResult)
      modifies this
      ensures reportType != "weekly" && reportType != "monthly" ==>
        r == SettingsRejected(InvalidReportTypeMessage) && weekly == old(weekly) && monthly == old(monthly)
      ensures reportType == "weekly" ==>
        weekly == Merge(old(weekly), settings) && monthly == old(monthly) && r == Updated(weekly)
      ensures reportType == "monthly" ==>
        monthly == Merge(old(monthly), settings) && weekly == old(weekly) && r == Updated(monthly)
    {
      if reportType != "weekly" && reportType != "monthly" {
        return SettingsRejected(InvalidReportTypeMessage);
      }
      if reportType == "weekly" {
        weekly := Merge(weekly, settings);
        r := Updated(weekly);
      } else {
        monthly := Merge(monthly, settings);
        r := Updated(monthly);
      }
    }
  }

  /** 주간 (weekly) for a weekly report, 월간 (monthly) for any other type. */
  function TypeLabel(reportType: string): (s: string)
    ensures s == "주간" <==> reportType == "weekly"
  {
    if reportType == "weekly" then "주간" else "월간"
  }

  /** `format_subject` of the settings page; `dateStr` is the locale rendering of the date.
      JavaScript's string `replace` substitutes only the first occurrence of each placeholder. */
  function FormatSubject(template: string, dateStr: string, reportType: string): (r: string)
    ensures !Contains(template, "{date}") && !Contains(template, "{type}") ==> r == template
  {
    var subject := ReplaceFirst(template, "{date}", dateStr);
    if Contains(subject, "{type}") then
      ReplaceFirst(subject, "{type}", TypeLabel(reportType))
    else
      subject
  }

  /** Both branches of `format_subject` replace the first `{type}` left after the date step. */
  lemma FormatSubjectIsTwoReplacements(template: string, dateStr: string, reportType: string)
    ensures FormatSubject(template, dateStr, reportType)
         == ReplaceFirst(ReplaceFirst(template, "{date}", dateStr), "{type}", TypeLabel(reportType))
  {
  }

  /** With no `{type}` in `a` and a non-empty `d` free of its characters, no `{type}` starts
      inside `a + d`, whatever follows. */
  lemma NoTypeInFront(a: string, d: string, b: string)
    requires |d| > 0 && CharsDisjoint(d, "{type}") && !Contains(a, "{type}")
    ensures forall j :: 0 <= j < |a + d| ==> !OccursAt(a + d + b, "{type}", j)
  {
    var s := a + d + b;
    assert s[|a|..|a| + |d|] == d;
    DisjointCharsApart(s, d, "{type}", |a|);
    assert s == a + (d + b);
    forall j | 0 <= j && j + 6 <= |a| ensures !OccursAt(s, "{type}", j) {
      OccursInFirst(a, d + b, "{type}", j);
    }
  }

  /** The first `{date}`, at `i`, becomes `dateStr`; when no `{type}` comes before it (and the
      date rendering holds no character of `{type}`, as the `ko-KR` digits, dots and spaces do
      not), the subject begins with the template up to `i` and the date, and the rest of the
      template follows with its first `{type}` replaced by the report type's label. */
  lemma FormatSubjectFillsFirstDate(template: string, dateStr: string, reportType: string, i: nat)
    requires IndexOf(template, "{date}") == Some(i)
    requires |dateStr| > 0 && CharsDisjoint(dateStr, "{type}") && !Contains(template[..i], "{type}")
    ensures FormatSubject(template, dateStr, reportType)
         == template[..i] + dateStr + ReplaceFirst(template[i + 6..], "{type}", TypeLabel(reportType))
  {
    var front, back := template[..i] + dateStr, template[i + 6..];
    var subject := ReplaceFirst(template, "{date}", dateStr);
    ReplaceFirstIsSplice(template, "{date}", dateStr, i);
    FormatSubjectIsTwoReplacements(template, dateStr, reportType);
    NoTypeInFront(template[..i], dateStr, back);
    ReplaceFirstAfterPrefix(front, back, subject, "{type}", TypeLabel(reportType));
  }

  /** A `{type}` and a `{date}` never overlap: each opens with `{`, which neither holds again. */
  lemma PlaceholdersApart(s: string, m: nat, k: nat)
    requires OccursAt(s, "{type}", m) && OccursAt(s, "{date}", k)
    ensures m + 6 <= k || k + 6 <= m
  {
    OpeningCharSeparates(s, "{type}", "{date}", m, k);
  }

  /** Whenever the template holds a `{type}`, the subject shows the report type's label:
      the `{date}` step never overlaps a `{type}`, so one is left for the label to replace. */
  lemma FormatSubjectShowsType(template: string, dateStr: string, reportType: string)
    ensures Contains(template, "{type}") ==> Contains(FormatSubject(template, dateStr, reportType), TypeLabel(reportType))
  {
    if Contains(template, "{type}") {
      var m :| 0 <= m <= |template| && OccursAt(template, "{type}", m);
      if Contains(template, "{date}") {
        PlaceholdersApart(template, m, IndexOf(template, "{date}").value);
      }
      ReplaceFirstKeepsClear(template, "{date}", dateStr, "{type}", m);
      ReplaceFirstShowsReplacement(ReplaceFirst(template, "{date}", dateStr), "{type}", TypeLabel(reportType));
      FormatSubjectIsTwoReplacements(template, dateStr, reportType);
    }
  }

  /** Only the first `{date}` is filled in: in a template with two, a `{date}` survives. */
  lemma FormatSubjectKeepsSecondDate(template: string, dateStr: string, reportType: string, i: nat, j: nat)
    requires OccursAt(template, "{date}", i) && OccursAt(template, "{date}", j) && i < j
    ensures Contains(FormatSubject(template, dateStr, reportType), "{date}")
  {
    var f := IndexOf(template, "{date}").value;
    OpeningCharSeparates(template, "{date}", "{date}", f, j);
    ReplaceFirstKeepsLaterOf(template, "{date}", dateStr, f, "{date}", j);
    var subject := ReplaceFirst(template, "{date}", dateStr);
    var q := j - 6 + |dateStr|;
    if Contains(subject, "{type}") {
      PlaceholdersApart(subject, IndexOf(subject, "{type}").value, q);
    }
    ReplaceFirstKeepsClear(subject, "{type}", TypeLabel(reportType), "{date}", q);
    FormatSubjectIsTwoReplacements(template, dateStr, reportType);
  }

  // ---------------------------------------------------------------- sending history

  datatype HistoryEntry = HistoryEntry(id: int, date: string, reportType: string, recipientCount: int, status: string)

  /** The history keeps the twenty most recent entries. */
  const MaxHistory: nat := 20

  class ReportHistoryManager {
    var history: seq<HistoryEntry>

    constructor()
      ensures history == []
    {
      history := [];
    }

    /** `addHistory`: the new entry goes first, and the list is cut to twenty. */
    method AddHistory(reportType: string, recipientCount: int, status: string, now: int, nowIso: string)
      returns (entry: HistoryEntry)
      modifies this
      ensures entry == HistoryEntry(now, nowIso, reportType, recipientCount, status)
      ensures |history| == if |old(history)| + 1 > MaxHistory then MaxHistory else |old(history)| + 1
      ensures history[0] == entry
      ensures history[1..] == old(history)[..|history| - 1]
    {
      entry := HistoryEntry(now, nowIso, reportType, recipientCount, status);
      history := [entry] + history;
      if |history| > MaxHistory {
        history := history[..MaxHistory];
      }
    }

    /** `clearHistory`. */
    method ClearHistory()
      modifies this
      ensures history == []
    {
      history := [];
    }
  }
}
