/** The report mailer's subject line: `{date}` and `{type}` placeholders filled in with
    Python's `str.replace`, which replaces every occurrence. Sending mail is not modelled. */
module EmailSender {
  import opened Text

  const DatePlaceholder: string := "{date}"
  const TypePlaceholder: string := "{type}"

  /** The `%Y-%m-%d` rendering of a date: four digits, dash, two digits, dash, two digits. */
  predicate IsIsoDate(s: string)
  {
    && |s| == 10 && s[4] == '-' && s[7] == '-'
    && forall i | 0 <= i < 10 && i != 4 && i != 7 :: '0' <= s[i] <= '9'
  }

  /** 주간 (weekly) for a weekly report, 월간 (monthly) for any other type. */
  function TypeLabel(reportType: string): (s: string)
    ensures |s| > 0 && CharsDisjoint(s, DatePlaceholder) && CharsDisjoint(s, TypePlaceholder)
    ensures s == "주간" <==> reportType == "weekly"
  {
    if reportType == "weekly" then "주간" else "월간"
  }

  /** An ISO date holds no character of either placeholder. */
  lemma IsoDateAvoidsPlaceholders(dateStr: string)
    requires IsIsoDate(dateStr)
    ensures CharsDisjoint(dateStr, DatePlaceholder) && CharsDisjoint(dateStr, TypePlaceholder)
  {
    forall c | c in dateStr ensures c !in DatePlaceholder && c !in TypePlaceholder {
      var i :| 0 <= i < |dateStr| && dateStr[i] == c;
    }
  }

  /** A `{type}` and a `{date}` never overlap: each opens with `{`, which neither holds again. */
  lemma PlaceholdersApart(s: string, m: nat)
    requires OccursAt(s, TypePlaceholder, m)
    ensures forall k :: m - |DatePlaceholder| < k < m + |TypePlaceholder| ==> !OccursAt(s, DatePlaceholder, k)
  {
    forall k | m - |DatePlaceholder| < k < m + |TypePlaceholder| ensures !OccursAt(s, DatePlaceholder, k) {
      if 0 <= k && OccursAt(s, DatePlaceholder, k) {
        OpeningCharSeparates(s, TypePlaceholder, DatePlaceholder, m, k);
      }
    }
  }

  /** Substituting an ISO date leaves no date placeholder, and changes nothing without one. */
  lemma DateSubstitution(template: string, dateStr: string)
    requires IsIsoDate(dateStr)
    ensures !Contains(ReplaceAll(template, DatePlaceholder, dateStr), DatePlaceholder)
    ensures !Contains(template, DatePlaceholder) ==> ReplaceAll(template, DatePlaceholder, dateStr) == template
  {
    IsoDateAvoidsPlaceholders(dateStr);
    ReplaceAllLeavesNoOccurrence(template, DatePlaceholder, dateStr, DatePlaceholder);
    if !Contains(template, DatePlaceholder) {
      ReplaceAllWithoutPattern(template, DatePlaceholder, dateStr);
    }
  }

  /** `EmailSender.format_subject`; `dateStr` is the report date rendered as `%Y-%m-%d`. */
  function FormatSubject(template: string, dateStr: string, reportType: string): (r: string)
    requires IsIsoDate(dateStr)
    ensures !Contains(template, DatePlaceholder) && !Contains(template, TypePlaceholder) ==> r == template
    ensures !Contains(r, DatePlaceholder)
    ensures Contains(ReplaceAll(template, DatePlaceholder, dateStr), TypePlaceholder) ==> !Contains(r, TypePlaceholder)
  {
    DateSubstitution(template, dateStr);
    var subject := ReplaceAll(template, DatePlaceholder, dateStr);
    if Contains(subject, TypePlaceholder) then
      ReplaceAllLeavesNoOccurrence(subject, TypePlaceholder, TypeLabel(reportType), TypePlaceholder);
      ReplaceAllLeavesNoOccurrence(subject, TypePlaceholder, TypeLabel(reportType), DatePlaceholder);
      ReplaceAll(subject, TypePlaceholder, TypeLabel(reportType))
    else
      subject
  }

  /** A template with a `{date}` yields a subject that shows the date. */
  lemma FormatSubjectShowsDate(template: string, dateStr: string, reportType: string)
    requires IsIsoDate(dateStr)
    ensures Contains(template, DatePlaceholder) ==> Contains(FormatSubject(template, dateStr, reportType), dateStr)
  {
    if Contains(template, DatePlaceholder) {
      IsoDateAvoidsPlaceholders(dateStr);
      var subject := ReplaceAll(template, DatePlaceholder, dateStr);
      ReplaceAllIntroduces(template, DatePlaceholder, dateStr);
      var i :| 0 <= i <= |subject| && OccursAt(subject, dateStr, i);
      if Contains(subject, TypePlaceholder) {
        DisjointCharsApart(subject, dateStr, TypePlaceholder, i);
        ReplaceAllKeepsApart(subject, TypePlaceholder, TypeLabel(reportType), dateStr, i);
      }
    }
  }

  /** A template with a `{type}` yields a subject that shows the report type's label (주간
      exactly for a weekly report) and no `{type}` any more. */
  lemma FormatSubjectShowsType(template: string, dateStr: string, reportType: string)
    requires IsIsoDate(dateStr)
    ensures Contains(template, TypePlaceholder) ==>
      var r := FormatSubject(template, dateStr, reportType);
      Contains(r, TypeLabel(reportType)) && !Contains(r, TypePlaceholder)
  {
    if Contains(template, TypePlaceholder) {
      var m :| 0 <= m <= |template| && OccursAt(template, TypePlaceholder, m);
      PlaceholdersApart(template, m);
      ReplaceAllKeepsApart(template, DatePlaceholder, dateStr, TypePlaceholder, m);
      var subject := ReplaceAll(template, DatePlaceholder, dateStr);
      ReplaceAllIntroduces(subject, TypePlaceholder, TypeLabel(reportType));
    }
  }
}
