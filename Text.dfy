/** String operations behind the subject-line templates and the e-mail checks:
    substring search, JavaScript's `String.prototype.replace` with a string pattern
    (first occurrence only, for a replacement holding no `$`), Python's `str.replace`
    (every occurrence, scanning left to right without overlap), and lower-casing. */
module Text {
  import opened Wrappers

  predicate OccursAt(s: string, p: string, i: int)
  {
    0 <= i && i + |p| <= |s| && s[i..i + |p|] == p
  }

  /** `p in s` in Python, `s.includes(p)` in JavaScript. */
  predicate Contains(s: string, p: string)
  {
    exists i | 0 <= i <= |s| :: OccursAt(s, p, i)
  }

  /** No character of `a` occurs in `b`. */
  predicate CharsDisjoint(a: string, b: string)
  {
    forall c :: c in a ==> c !in b
  }

  /** Occurrences in `s[1..]` are the occurrences in `s` after its first position. */
  lemma OccursShift(s: string, p: string)
    requires s != []
    ensures forall i :: 1 <= i ==> (OccursAt(s, p, i) <==> OccursAt(s[1..], p, i - 1))
  {
    forall i | 1 <= i ensures OccursAt(s, p, i) <==> OccursAt(s[1..], p, i - 1) {
      if i + |p| <= |s| {
        assert s[i..i + |p|] == s[1..][i - 1..i - 1 + |p|];
      }
    }
  }

  /** `s.indexOf(p, from)`, with `None` for -1: the first position from `from` on at which
      `p` occurs. */
  function IndexFrom(s: string, p: string, from: nat): (r: Option<nat>)
    ensures r.Some? ==> from <= r.value && OccursAt(s, p, r.value)
    ensures r.Some? ==> forall j :: from <= j < r.value ==> !OccursAt(s, p, j)
    ensures r.None? ==> forall j :: from <= j ==> !OccursAt(s, p, j)
    decreases |s| + 1 - from
  {
    if |s| < from then None
    else if OccursAt(s, p, from) then Some(from)
    else IndexFrom(s, p, from + 1)
  }

  /** `s.indexOf(p)`, with `None` for -1: the first position at which `p` occurs. */
  function IndexOf(s: string, p: string): (r: Option<nat>)
    ensures r.Some? ==> OccursAt(s, p, r.value)
    ensures r.Some? ==> forall j :: 0 <= j < r.value ==> !OccursAt(s, p, j)
    ensures r.None? <==> !Contains(s, p)
  {
    IndexFrom(s, p, 0)
  }

  /** JavaScript `s.replace(p, rep)` for a string pattern: only the first occurrence is replaced.
      `rep` is inserted literally, which is what JavaScript does when `rep` holds no `$`. */
  function ReplaceFirst(s: string, p: string, rep: string): (r: string)
    ensures !Contains(s, p) ==> r == s
    ensures Contains(s, p) ==>
      var i := IndexOf(s, p).value;
      r == s[..i] + rep + s[i + |p|..] && |r| == |s| - |p| + |rep|
  {
    match IndexOf(s, p)
    case None => s
    case Some(i) => s[..i] + rep + s[i + |p|..]
  }

  /** A slice of `a + b` that lies in `b`. */
  lemma SliceInSecond(a: string, b: string, k: nat, n: nat)
    requires k + n <= |b|
    ensures (a + b)[|a| + k..|a| + k + n] == b[k..k + n]
  {
  }

  /** A slice of a suffix is a slice of the whole. */
  lemma SliceOfSuffix(s: string, m: nat, k: nat, n: nat)
    requires m + k + n <= |s|
    ensures s[m..][k..k + n] == s[m + k..m + k + n]
  {
  }

  /** Splicing `rep` over `s[i..i + n]` moves an occurrence of `p` after the splice by `|rep| - n`. */
  lemma SpliceKeepsLater(s: string, i: nat, n: nat, rep: string, j: nat, p: string)
    requires i + n <= j && j + |p| <= |s| && s[j..j + |p|] == p
    ensures OccursAt(s[..i] + rep + s[i + n..], p, j - n + |rep|)
  {
    var front, suffix := s[..i] + rep, s[i + n..];
    var d := j - i - n;
    assert |front| + d == j - n + |rep|;
    SliceOfSuffix(s, i + n, d, |p|);
    SliceInSecond(front, suffix, d, |p|);
  }

  /** With the first occurrence at `i`, the result is the splice of `rep` over `s[i..i + |p|]`. */
  lemma ReplaceFirstIsSplice(s: string, p: string, rep: string, i: nat)
    requires IndexOf(s, p) == Some(i)
    ensures ReplaceFirst(s, p, rep) == s[..i] + rep + s[i + |p|..]
  {
  }

  /** Occurrences in `s[m..]` are the occurrences in `s` from position `m` on. */
  lemma OccursShiftBy(s: string, p: string, m: nat)
    requires m <= |s|
    ensures forall i :: m <= i ==> (OccursAt(s, p, i) <==> OccursAt(s[m..], p, i - m))
  {
    forall i | m <= i ensures OccursAt(s, p, i) <==> OccursAt(s[m..], p, i - m) {
      if i + |p| <= |s| {
        assert s[i..i + |p|] == s[m..][i - m..i - m + |p|];
      }
    }
  }

  /** An occurrence in `b` is an occurrence in `a + b`. */
  lemma ContainsAfter(a: string, b: string, t: string)
    requires Contains(b, t)
    ensures Contains(a + b, t)
  {
    var k :| 0 <= k <= |b| && OccursAt(b, t, k);
    SliceInSecond(a, b, k, |t|);
    assert OccursAt(a + b, t, |a| + k);
  }

  /** An occurrence fixes the characters it covers. */
  lemma OccursAtChars(s: string, p: string, i: nat)
    requires OccursAt(s, p, i)
    ensures forall n :: 0 <= n < |p| ==> s[i + n] == p[n]
  {
    forall n | 0 <= n < |p| ensures s[i + n] == p[n] {
      assert s[i..i + |p|][n] == s[i + n];
    }
  }

  /** Two patterns whose common first character appears nowhere else in either cannot
      overlap where they occur, unless they are the same pattern at the same position. */
  lemma OpeningCharSeparates(s: string, p: string, q: string, i: nat, k: nat)
    requires |p| > 0 && |q| > 0 && p[0] == q[0]
    requires forall n :: 0 < n < |p| ==> p[n] != p[0]
    requires forall n :: 0 < n < |q| ==> q[n] != q[0]
    requires OccursAt(s, p, i) && OccursAt(s, q, k)
    requires i != k || (p != q && |p| == |q|)
    ensures i + |p| <= k || k + |q| <= i
  {
    OccursAtChars(s, p, i);
    OccursAtChars(s, q, k);
    assert s[i + 0] == p[0] && s[k + 0] == q[0];
  }

  /** A string `t` sharing no character with `p` overlaps no occurrence of `p`. */
  lemma DisjointCharsApart(s: string, t: string, p: string, i: nat)
    requires |p| > 0 && |t| > 0 && CharsDisjoint(t, p) && OccursAt(s, t, i)
    ensures forall k :: i - |p| < k < i + |t| ==> !OccursAt(s, p, k)
  {
    OccursAtChars(s, t, i);
    forall k | i - |p| < k < i + |t| ensures !OccursAt(s, p, k) {
      if 0 <= k && k + |p| <= |s| {
        var n := if i < k then k else i;
        assert s[i + (n - i)] in t;
        assert s[k..k + |p|][n - k] == s[n];
      }
    }
  }

  /** An occurrence in `a + b` from position `|a|` on is an occurrence in `b`, and back. */
  lemma OccursInSecond(a: string, b: string, p: string, j: nat)
    requires |a| <= j
    ensures OccursAt(a + b, p, j) <==> OccursAt(b, p, j - |a|)
  {
    if j + |p| <= |a + b| {
      assert (a + b)[j..j + |p|] == b[j - |a|..j - |a| + |p|];
    }
  }

  /** The first occurrence is the occurrence with none before it. */
  lemma IndexOfIsFirst(s: string, p: string, v: nat)
    requires OccursAt(s, p, v) && forall j :: 0 <= j < v ==> !OccursAt(s, p, j)
    ensures IndexOf(s, p) == Some(v)
  {
    assert Contains(s, p);
    var w := IndexOf(s, p).value;
    assert !(w < v);
    assert !(v < w);
  }

  /** Occurrences in `s == a + b` from position `|a|` on are the occurrences in `b`. */
  lemma OccursInSecondAll(a: string, b: string, s: string, p: string)
    requires s == a + b
    ensures forall j :: |a| <= j ==> (OccursAt(s, p, j) <==> OccursAt(b, p, j - |a|))
  {
    forall j | |a| <= j ensures OccursAt(s, p, j) <==> OccursAt(b, p, j - |a|) {
      OccursInSecond(a, b, p, j);
    }
  }

  /** When `p` starts nowhere before `m` in `s`, and from `m` on `s` has the occurrences of `t`
      moved by `m`, the first occurrence in `s` is the first one in `t`, moved by `m`. */
  lemma IndexOfShifted(s: string, t: string, p: string, m: nat)
    requires forall j :: 0 <= j < m ==> !OccursAt(s, p, j)
    requires forall j :: m <= j ==> (OccursAt(s, p, j) <==> OccursAt(t, p, j - m))
    ensures IndexOf(t, p).None? ==> IndexOf(s, p).None?
    ensures IndexOf(t, p).Some? ==> IndexOf(s, p) == Some(m + IndexOf(t, p).value)
  {
    match IndexOf(t, p)
    case Some(k) =>
      forall j | 0 <= j < m + k ensures !OccursAt(s, p, j) {
        if m <= j { assert !OccursAt(t, p, j - m); }
      }
      IndexOfIsFirst(s, p, m + k);
    case None =>
      forall j | 0 <= j <= |s| ensures !OccursAt(s, p, j) {
        if m <= j { assert !OccursAt(t, p, j - m); }
      }
  }

  /** Splicing over a stretch of `b` inside `s == a + b` is splicing over it in `b`. */
  lemma SpliceInSecond(a: string, b: string, s: string, k: nat, n: nat, rep: string, x: string, y: string)
    requires s == a + b && k + n <= |b|
    requires x == s[..|a| + k] + rep + s[|a| + k + n..] && y == b[..k] + rep + b[k + n..]
    ensures x == a + y
  {
    assert s[..|a| + k] == a + b[..k];
    assert s[|a| + k + n..] == b[k + n..];
  }

  /** When `p` starts nowhere before position `|a|` of `s == a + b`, replacing its first
      occurrence touches `b` alone. */
  lemma ReplaceFirstAfterPrefix(a: string, b: string, s: string, p: string, rep: string)
    requires s == a + b
    requires forall j :: 0 <= j < |a| ==> !OccursAt(s, p, j)
    ensures ReplaceFirst(s, p, rep) == a + ReplaceFirst(b, p, rep)
  {
    OccursInSecondAll(a, b, s, p);
    IndexOfShifted(s, b, p, |a|);
    match IndexOf(b, p)
    case Some(k) =>
      ReplaceFirstIsSplice(s, p, rep, |a| + k);
      ReplaceFirstIsSplice(b, p, rep, k);
      SpliceInSecond(a, b, s, k, |p|, rep, ReplaceFirst(s, p, rep), ReplaceFirst(b, p, rep));
    case None =>
  }

  /** An occurrence in `a + b` that ends within `a` is an occurrence in `a`, and back. */
  lemma OccursInFirst(a: string, b: string, p: string, j: nat)
    requires j + |p| <= |a|
    ensures OccursAt(a + b, p, j) <==> OccursAt(a, p, j)
  {
    assert (a + b)[j..j + |p|] == a[j..j + |p|];
  }

  /** An occurrence of `t` that ends before the first occurrence of `p` survives replacing it. */
  lemma ReplaceFirstKeepsEarlierOccurrences(s: string, p: string, rep: string, i: nat, t: string, j: nat)
    requires IndexOf(s, p) == Some(i) && OccursAt(s, t, j) && j + |t| <= i
    ensures OccursAt(ReplaceFirst(s, p, rep), t, j)
  {
    ReplaceFirstIsSplice(s, p, rep, i);
    OccursInFirst(s[..i], rep + s[i + |p|..], t, j);
    OccursInFirst(s[..i], s[i..], t, j);
    assert s[..i] + s[i..] == s;
    assert s[..i] + rep + s[i + |p|..] == s[..i] + (rep + s[i + |p|..]);
  }

  /** An occurrence of `t` that starts after the first occurrence of `p` survives replacing it,
      moved by the difference in length between the replacement and the pattern. */
  lemma ReplaceFirstKeepsLaterOf(s: string, p: string, rep: string, i: nat, t: string, j: nat)
    requires IndexOf(s, p) == Some(i) && i + |p| <= j && OccursAt(s, t, j)
    ensures OccursAt(ReplaceFirst(s, p, rep), t, j - |p| + |rep|)
  {
    ReplaceFirstIsSplice(s, p, rep, i);
    SpliceKeepsLater(s, i, |p|, rep, j, t);
  }

  /** An occurrence of `t` clear of the first occurrence of `p` survives replacing it. */
  lemma ReplaceFirstKeepsClear(s: string, p: string, rep: string, t: string, j: nat)
    requires OccursAt(s, t, j)
    requires Contains(s, p) ==> IndexOf(s, p).value + |p| <= j || j + |t| <= IndexOf(s, p).value
    ensures Contains(ReplaceFirst(s, p, rep), t)
  {
    match IndexOf(s, p)
    case None =>
      assert OccursAt(ReplaceFirst(s, p, rep), t, j);
    case Some(i) =>
      if i + |p| <= j {
        ReplaceFirstKeepsLaterOf(s, p, rep, i, t, j);
      } else {
        ReplaceFirstKeepsEarlierOccurrences(s, p, rep, i, t, j);
      }
  }

  /** Replacing the first occurrence puts `rep` where it was. */
  lemma ReplaceFirstShowsReplacement(s: string, p: string, rep: string)
    requires Contains(s, p)
    ensures OccursAt(ReplaceFirst(s, p, rep), rep, IndexOf(s, p).value)
  {
    var i := IndexOf(s, p).value;
    ReplaceFirstIsSplice(s, p, rep, i);
    assert (s[..i] + rep + s[i + |p|..])[i..i + |rep|] == rep;
  }

  /** Python `s.replace(p, rep)`: every occurrence, found left to right without overlap. */
  function ReplaceAll(s: string, p: string, rep: string): string
    requires |p| > 0
    decreases |s|
  {
    if |s| < |p| then s
    else if s[..|p|] == p then rep + ReplaceAll(s[|p|..], p, rep)
    else [s[0]] + ReplaceAll(s[1..], p, rep)
  }

  /** A string without the pattern comes back unchanged. */
  lemma {:induction false} ReplaceAllWithoutPattern(s: string, p: string, rep: string)
    requires |p| > 0 && !Contains(s, p)
    ensures ReplaceAll(s, p, rep) == s
    decreases |s|
  {
    if |s| >= |p| {
      assert !OccursAt(s, p, 0);
      assert !Contains(s[1..], p) by {
        forall i | OccursAt(s[1..], p, i) ensures false {
          assert s[i + 1..i + 1 + |p|] == s[1..][i..i + |p|];
          assert OccursAt(s, p, i + 1);
        }
      }
      ReplaceAllWithoutPattern(s[1..], p, rep);
    }
  }

  /** Where the output holds no character of the replacement, it is the input unchanged. */
  lemma {:induction false} ReplaceAllKeepsPrefix(t: string, p: string, rep: string, m: nat)
    requires |p| > 0 && |rep| > 0
    requires m <= |ReplaceAll(t, p, rep)|
    requires forall i :: 0 <= i < m ==> ReplaceAll(t, p, rep)[i] !in rep
    ensures m <= |t| && ReplaceAll(t, p, rep)[..m] == t[..m]
    decreases |t|
  {
    var r := ReplaceAll(t, p, rep);
    if |t| < |p| {
    } else if t[..|p|] == p {
      assert r == rep + ReplaceAll(t[|p|..], p, rep);
      assert r[0] == rep[0] && rep[0] in rep;
      assert m == 0;
    } else if m > 0 {
      var rest := ReplaceAll(t[1..], p, rep);
      assert r == [t[0]] + rest;
      forall i | 0 <= i < m - 1 ensures rest[i] !in rep {
        assert rest[i] == r[i + 1];
      }
      ReplaceAllKeepsPrefix(t[1..], p, rep, m - 1);
      assert r[..m] == [t[0]] + rest[..m - 1];
    }
  }

  lemma ContainsShift(s: string, q: string, k: nat)
    requires k <= |s| && !Contains(s, q)
    ensures !Contains(s[k..], q)
  {
    forall i | OccursAt(s[k..], q, i) ensures false {
      assert s[k..][i..i + |q|] == s[k + i..k + i + |q|];
      assert OccursAt(s, q, k + i);
    }
  }

  /** A replacement that shares no character with `q` cannot start or carry an occurrence of `q`. */
  lemma NoOccurrenceAfterReplacement(rep: string, rest: string, q: string)
    requires |q| > 0 && CharsDisjoint(rep, q) && !Contains(rest, q)
    ensures !Contains(rep + rest, q)
  {
    var r := rep + rest;
    forall i ensures !OccursAt(r, q, i) {
      if 0 <= i < |rep| && i + |q| <= |r| {
        assert r[i..i + |q|][0] == r[i] == rep[i];
        assert rep[i] in rep && q[0] in q;
      } else if |rep| <= i && i + |q| <= |r| {
        assert r[i..i + |q|] == rest[i - |rep|..i - |rep| + |q|];
        assert !OccursAt(rest, q, i - |rep|);
      }
    }
  }

  /** A window of `r` holding a character that `q` lacks is no occurrence of `q`. */
  lemma ForeignCharBreaksWindow(r: string, q: string, k: nat)
    requires k < |q| <= |r| && r[k] !in q
    ensures !OccursAt(r, q, 0)
  {
    assert r[..|q|][k] == r[k];
  }

  /** When the first `m` characters of `ReplaceAll(s[1..], p, rep)` hold no character of the
      replacement, keeping `s[0]` in front of it reproduces the first `m + 1` characters of `s`. */
  lemma KeptFrontIsSource(s: string, p: string, rep: string, m: nat)
    requires |p| > 0 && |rep| > 0 && |s| >= 1
    requires m <= |ReplaceAll(s[1..], p, rep)|
    requires forall i :: 0 <= i < m ==> ReplaceAll(s[1..], p, rep)[i] !in rep
    ensures m + 1 <= |s| && ([s[0]] + ReplaceAll(s[1..], p, rep))[..m + 1] == s[..m + 1]
  {
    var rest := ReplaceAll(s[1..], p, rep);
    ReplaceAllKeepsPrefix(s[1..], p, rep, m);
    assert ([s[0]] + rest)[..m + 1] == [s[0]] + rest[..m];
    assert s[..m + 1] == [s[0]] + s[1..][..m];
  }

  /** `c` followed by `rest` does not start with `q` when either a replacement character falls
      inside the window, or the window reproduces the front of `s`, which does not start with `q`. */
  lemma NoOccurrenceAtFrontOf(c: char, rest: string, s: string, rep: string, q: string)
    requires |q| > 0 && |q| <= 1 + |rest| && CharsDisjoint(rep, q) && !OccursAt(s, q, 0)
    requires (forall i :: 0 <= i < |q| - 1 ==> rest[i] !in rep) ==>
      |q| <= |s| && ([c] + rest)[..|q|] == s[..|q|]
    ensures !OccursAt([c] + rest, q, 0)
  {
    if k :| 0 <= k < |q| - 1 && rest[k] in rep {
      ForeignCharBreaksWindow([c] + rest, q, k + 1);
    }
  }

  /** The front of `[s[0]] + ReplaceAll(s[1..], p, rep)` matches `q` only where `s` does. */
  lemma NoOccurrenceAtFront(s: string, p: string, rep: string, q: string)
    requires |p| > 0 && |q| > 0 && |rep| > 0 && |s| >= 1
    requires CharsDisjoint(rep, q)
    requires !OccursAt(s, q, 0)
    ensures !OccursAt([s[0]] + ReplaceAll(s[1..], p, rep), q, 0)
  {
    var rest := ReplaceAll(s[1..], p, rep);
    if |q| <= 1 + |rest| {
      if forall i :: 0 <= i < |q| - 1 ==> rest[i] !in rep {
        KeptFrontIsSource(s, p, rep, |q| - 1);
      }
      NoOccurrenceAtFrontOf(s[0], rest, s, rep, q);
    }
  }

  /** A string whose front holds no occurrence of `q` and whose tail holds none holds none. */
  lemma NoOccurrenceInCons(c: char, t: string, q: string)
    requires |q| > 0 && !OccursAt([c] + t, q, 0) && !Contains(t, q)
    ensures !Contains([c] + t, q)
  {
    var r := [c] + t;
    forall i ensures !OccursAt(r, q, i) {
      if 1 <= i && i + |q| <= |r| {
        assert r[i..i + |q|] == t[i - 1..i - 1 + |q|];
        assert !OccursAt(t, q, i - 1);
      }
    }
  }

  /** The step of `ReplaceAll` that keeps `s[0]` creates no occurrence of `q`. */
  lemma NoOccurrenceAfterKeptChar(s: string, p: string, rep: string, q: string)
    requires |p| > 0 && |q| > 0 && |rep| > 0 && |s| >= 1
    requires CharsDisjoint(rep, q)
    requires !OccursAt(s, q, 0)
    requires !Contains(ReplaceAll(s[1..], p, rep), q)
    ensures !Contains([s[0]] + ReplaceAll(s[1..], p, rep), q)
  {
    NoOccurrenceAtFront(s, p, rep, q);
    NoOccurrenceInCons(s[0], ReplaceAll(s[1..], p, rep), q);
  }

  /** After `ReplaceAll(s, p, rep)` the string holds no occurrence of `q`, provided `q` is the
      replaced pattern itself or was absent from `s`, and the (non-empty) replacement shares
      no character with `q`. */
  lemma {:induction false} ReplaceAllLeavesNoOccurrence(s: string, p: string, rep: string, q: string)
    requires |p| > 0 && |q| > 0 && |rep| > 0
    requires CharsDisjoint(rep, q)
    requires q == p || !Contains(s, q)
    ensures !Contains(ReplaceAll(s, p, rep), q)
    decreases |s|
  {
    if |s| < |p| {
      if q == p {
        assert forall i :: !OccursAt(s, q, i);
      }
    } else if s[..|p|] == p {
      if q != p { ContainsShift(s, q, |p|); }
      ReplaceAllLeavesNoOccurrence(s[|p|..], p, rep, q);
      NoOccurrenceAfterReplacement(rep, ReplaceAll(s[|p|..], p, rep), q);
    } else {
      if q != p { ContainsShift(s, q, 1); }
      ReplaceAllLeavesNoOccurrence(s[1..], p, rep, q);
      assert !OccursAt(s, q, 0);
      NoOccurrenceAfterKeptChar(s, p, rep, q);
    }
  }
  /** Replacing a pattern that occurs puts the replacement into the result. */
  lemma {:induction false} ReplaceAllIntroduces(s: string, p: string, rep: string)
    requires |p| > 0 && Contains(s, p)
    ensures Contains(ReplaceAll(s, p, rep), rep)
    decreases |s|
  {
    var i :| 0 <= i <= |s| && OccursAt(s, p, i);
    if s[..|p|] == p {
      assert (rep + ReplaceAll(s[|p|..], p, rep))[..|rep|] == rep;
      assert OccursAt(rep + ReplaceAll(s[|p|..], p, rep), rep, 0);
    } else {
      OccursShift(s, p);
      assert OccursAt(s[1..], p, i - 1);
      ReplaceAllIntroduces(s[1..], p, rep);
      ContainsAfter([s[0]], ReplaceAll(s[1..], p, rep), rep);
    }
  }

  /** With no occurrence of `p` starting among the first `m` characters, those characters
      are kept as they are. */
  lemma {:induction false} ReplaceAllKeepsUnmatchedFront(s: string, p: string, rep: string, m: nat)
    requires |p| > 0 && m <= |s|
    requires forall k :: 0 <= k < m ==> !OccursAt(s, p, k)
    ensures ReplaceAll(s, p, rep) == s[..m] + ReplaceAll(s[m..], p, rep)
    decreases m
  {
    if m == 0 {
      assert s[..0] == [] && s[0..] == s;
    } else if |s| < |p| {
      assert s[..m] + s[m..] == s;
    } else {
      assert !OccursAt(s, p, 0);
      OccursShift(s, p);
      forall k | 0 <= k < m - 1 ensures !OccursAt(s[1..], p, k) {
        assert !OccursAt(s, p, k + 1);
      }
      ReplaceAllKeepsUnmatchedFront(s[1..], p, rep, m - 1);
      assert s[1..][m - 1..] == s[m..];
      assert [s[0]] + s[1..][..m - 1] == s[..m];
    }
  }

  /** An occurrence of `t` that no occurrence of `p` overlaps survives `ReplaceAll`. */
  lemma {:induction false} ReplaceAllKeepsApart(s: string, p: string, rep: string, t: string, i: nat)
    requires |p| > 0 && |t| > 0 && OccursAt(s, t, i)
    requires forall k :: i - |p| < k < i + |t| ==> !OccursAt(s, p, k)
    ensures Contains(ReplaceAll(s, p, rep), t)
    decreases |s|
  {
    if |s| < |p| {
      assert OccursAt(ReplaceAll(s, p, rep), t, i);
    } else if s[..|p|] == p {
      assert OccursAt(s, p, 0);
      OccursShiftBy(s, t, |p|);
      OccursShiftBy(s, p, |p|);
      forall k | i - |p| - |p| < k < i - |p| + |t| ensures !OccursAt(s[|p|..], p, k) {
        if 0 <= k { assert !OccursAt(s, p, k + |p|); }
      }
      ReplaceAllKeepsApart(s[|p|..], p, rep, t, i - |p|);
      ContainsAfter(rep, ReplaceAll(s[|p|..], p, rep), t);
    } else if i >= 1 {
      OccursShift(s, t);
      OccursShift(s, p);
      forall k | i - 1 - |p| < k < i - 1 + |t| ensures !OccursAt(s[1..], p, k) {
        if 0 <= k { assert !OccursAt(s, p, k + 1); }
      }
      ReplaceAllKeepsApart(s[1..], p, rep, t, i - 1);
      ContainsAfter([s[0]], ReplaceAll(s[1..], p, rep), t);
    } else {
      ReplaceAllKeepsUnmatchedFront(s, p, rep, |t|);
      var r := ReplaceAll(s, p, rep);
      assert r[..|t|] == s[..|t|] == t;
      assert OccursAt(r, t, 0);
    }
  }


  /** ASCII lower-casing, JavaScript's `toLowerCase` restricted to the characters an
      address that passes the e-mail check can hold. */
  function LowerChar(c: char): char
  {
    if 'A' <= c <= 'Z' then (c as int + 32) as char else c
  }

  function ToLower(s: string): (r: string)
    ensures |r| == |s|
    ensures forall i :: 0 <= i < |s| ==> r[i] == LowerChar(s[i])
  {
    seq(|s|, i requires 0 <= i < |s| => LowerChar(s[i]))
  }
}
