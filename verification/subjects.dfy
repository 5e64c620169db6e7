/** The subject-row parser (`parse_subjects_from_text`, pdf_extractor.py:78-250): picks the lines
    of a student block that start with a subject code, decomposes each into the nine attribute
    values by positional rules anchored on the first grade token, and stores them under
    `<prefix>_<ATTR>` keys without ever overwriting an earlier key. */
module Subjects {
  import opened Wrappers
  import Seqs
  import opened Text
  import opened Records

  /** The grade tokens, in the order the source lists them. */
  const Grades: seq<string> := ["A+", "A", "B+", "B", "C+", "C", "D", "E", "F", "O", "FFF"]

  /** The marker for a deliberately blank numeric field. */
  const Omitted: string := "---"

  /** The nine attributes of one subject line, each a token-derived string or `N/A`. */
  datatype Attributes = Attributes(
    cce: string, ese: string, tw: string, tot: string, crd: string,
    ernCrd: string, grd: string, grdPnt: string, crdPnt: string)

  /** All nine attributes not available: where every subject line starts. */
  const Unknown: Attributes := Attributes(
    NotAvailable, NotAvailable, NotAvailable, NotAvailable, NotAvailable,
    NotAvailable, NotAvailable, NotAvailable, NotAvailable)

  // ---------------------------------------------------------------- line selection

  /** The subject-code selection pattern, applied with `re.match`: after three capitals, a hyphen
      and a run of digits every further part of the pattern is optional and there is no end
      anchor, so a line is selected exactly when it begins with three capital letters, a hyphen
      and a digit. */
  predicate IsSubjectLine(line: string)
  {
    |line| >= 5 && IsUpper(line[0]) && IsUpper(line[1]) && IsUpper(line[2]) && line[3] == '-' && IsDigit(line[4])
  }

  /** Selection reads only the first five characters: lines that agree on them are selected
      alike, and text after a selected head never deselects it. */
  lemma SelectedByHead(a: string, b: string)
    requires |a| >= 5 && |b| >= 5 && a[..5] == b[..5]
    ensures IsSubjectLine(a) <==> IsSubjectLine(b)
    ensures IsSubjectLine(a) ==> IsSubjectLine(a + b)
  {
    assert forall i | 0 <= i < 5 :: a[i] == a[..5][i] == b[..5][i] == b[i];
    assert forall i | 0 <= i < 5 :: (a + b)[i] == a[i];
  }

  /** The lines of a block: the block is stripped, split on newlines, and every line stripped. */
  function StrippedLines(text: string): (lines: seq<string>)
    ensures |lines| == |Split(Strip(text), '\n')|
    ensures forall i | 0 <= i < |lines| :: lines[i] == Strip(Split(Strip(text), '\n')[i])
    ensures forall raw | raw in Split(Strip(text), '\n') :: Strip(raw) in lines
    ensures forall l | l in lines :: exists raw | raw in Split(Strip(text), '\n') :: Strip(raw) == l
  {
    var raw := Split(Strip(text), '\n');
    var lines := Seqs.Map(raw, Strip);
    assert forall i | 0 <= i < |lines| :: lines[i] == Strip(raw[i]);
    Seqs.MapMembers(raw, Strip);
    lines
  }

  /** The candidate subject lines of a block: of its stripped lines, only those of subject-code
      shape are kept, in order. */
  function SubjectLines(text: string): (lines: seq<string>)
    ensures forall l | l in lines :: IsSubjectLine(l) && IsStripped(l)
    ensures forall raw | raw in Split(Strip(text), '\n') && IsSubjectLine(Strip(raw)) :: Strip(raw) in lines
    ensures forall l | l in lines :: exists raw | raw in Split(Strip(text), '\n') :: Strip(raw) == l
  {
    var stripped := StrippedLines(text);
    var lines := Seqs.Filter(stripped, IsSubjectLine);
    SelectedMembers(Split(Strip(text), '\n'), stripped, lines);
    lines
  }

  /** Selection keeps the repeats of the block's lines: every subject line occurs as often as among
      the stripped lines, and no other line occurs. */
  lemma SubjectLinesCounts(text: string)
    ensures forall l :: multiset(SubjectLines(text))[l] == if IsSubjectLine(l) then multiset(StrippedLines(text))[l] else 0
  {
    SelectedCounts(StrippedLines(text), SubjectLines(text));
  }

  lemma SelectedCounts(stripped: seq<string>, lines: seq<string>)
    requires lines == Seqs.Filter(stripped, IsSubjectLine)
    ensures forall l :: multiset(lines)[l] == if IsSubjectLine(l) then multiset(stripped)[l] else 0
  {
    forall l ensures multiset(lines)[l] == if IsSubjectLine(l) then multiset(stripped)[l] else 0 {
      Seqs.FilterMultiplicity(stripped, IsSubjectLine, l);
    }
  }

  /** Selection keeps the order of the block's lines: the selected lines are the stripped lines at
      the increasing positions of subject-code shape. */
  lemma SubjectLinesOrder(text: string)
    ensures var stripped := StrippedLines(text);
            var ix := Seqs.Selected(stripped, IsSubjectLine, 0);
            |SubjectLines(text)| == |ix| && forall k | 0 <= k < |ix| :: ix[k] < |stripped| && SubjectLines(text)[k] == stripped[ix[k]]
  {
    var stripped := StrippedLines(text);
    Seqs.FilterPicks(stripped, IsSubjectLine, 0);
    assert stripped[0..] == stripped;
  }

  /** Membership of the selected lines, traced back to the raw lines they were stripped from. */
  lemma SelectedMembers(raw: seq<string>, stripped: seq<string>, lines: seq<string>)
    requires forall r | r in raw :: Strip(r) in stripped
    requires forall l | l in stripped :: exists r | r in raw :: Strip(r) == l
    requires forall l | l in lines :: l in stripped && IsSubjectLine(l)
    requires forall l | l in stripped && IsSubjectLine(l) :: l in lines
    ensures forall l | l in lines :: IsSubjectLine(l) && IsStripped(l)
    ensures forall r | r in raw && IsSubjectLine(Strip(r)) :: Strip(r) in lines
    ensures forall l | l in lines :: exists r | r in raw :: Strip(r) == l
  {
  }

  // ---------------------------------------------------------------- column prefix

  /** The key prefix of a subject code: a code holding `_TW` anywhere has the non-overlapping
      occurrences of `_TW` found scanning left to right removed (a single pass, so an occurrence the
      removal brings together survives) and one put back at the end, so term-work lines get their
      own group of keys; any other code is used verbatim. */
  function ColumnPrefix(code: string): (p: string)
    ensures Contains(code, "_TW") ==> EndsWith(p, "_TW") && p[..|p| - 3] == DeleteAll(code, "_TW")
    ensures !Contains(code, "_TW") ==> p == code
  {
    if Contains(code, "_TW") then DeleteAll(code, "_TW") + "_TW" else code
  }

  /** A term-work code of the usual shape `<base>_TW` keeps its own name as the prefix. */
  lemma TermWorkPrefix(base: string)
    requires !Contains(base, "_TW")
    ensures ColumnPrefix(base + "_TW") == base + "_TW"
  {
    var code := base + "_TW";
    assert code[|base|..|base| + 3] == "_TW";
    assert OccursAt(code, "_TW", |base|);
    assert "_TW"[1..] == "TW";
    DeleteAllTrailing(base, "_TW");
  }

  // ---------------------------------------------------------------- token classification

  /** A token that, with every `*` removed, is a number or the omitted marker. */
  predicate IsValueToken(t: string)
  {
    var v := RemoveChar(t, '*');
    IsDigits(v) || v == Omitted
  }

  lemma RemoveCharAbsent(s: string, c: char)
    requires c !in s
    ensures RemoveChar(s, c) == s
  {
  }

  /** How a value token is stored: with its stars removed, and one star put back in front when
      the token began with a star. */
  function Marked(t: string): (r: string)
    ensures RemoveChar(r, '*') == RemoveChar(t, '*')
    ensures StartsWith(r, "*") <==> StartsWith(t, "*")
    ensures '*' !in (if StartsWith(t, "*") then r[1..] else r)
  {
    var v := RemoveChar(t, '*');
    RemoveCharAbsent(v, '*');
    if StartsWith(t, "*") then
      assert ("*" + v)[1..] == v;
      "*" + v
    else
      assert v == [] || v[0] in v;
      v
  }

  /** The total as stored: one leading star dropped. */
  function DropStar(t: string): (r: string)
    ensures StartsWith(t, "*") ==> "*" + r == t
    ensures !StartsWith(t, "*") ==> r == t
  {
    if StartsWith(t, "*") then t[1..] else t
  }

  // ---------------------------------------------------------------- grade anchor

  /** Index of the first grade token at or after `from`. */
  function FirstGradeFrom(parts: seq<string>, from: nat): (g: Option<nat>)
    requires from <= |parts|
    ensures g.Some? ==> from <= g.value < |parts| && parts[g.value] in Grades
    ensures g.Some? ==> forall j | from <= j < g.value :: parts[j] !in Grades
    ensures g.None? ==> forall j | from <= j < |parts| :: parts[j] !in Grades
    decreases |parts| - from
  {
    if from == |parts| then None
    else if parts[from] in Grades then Some(from)
    else FirstGradeFrom(parts, from + 1)
  }

  /** The grade search of the source: the first token (the code included) that is a grade. */
  function FirstGrade(parts: seq<string>): (g: Option<nat>)
    ensures g.Some? ==> GradeAt(parts, g.value)
    ensures g.None? ==> forall j | 0 <= j < |parts| :: parts[j] !in Grades
  {
    FirstGradeFrom(parts, 0)
  }

  /** `g` is the position of the first grade token of `parts`. */
  predicate GradeAt(parts: seq<string>, g: nat)
  {
    g < |parts| && parts[g] in Grades && forall j | 0 <= j < g :: parts[j] !in Grades
  }

  // ---------------------------------------------------------------- value tokens

  /** The tokens of `parts` at the positions `ix`. */
  function TokensAt(parts: seq<string>, ix: seq<nat>): (ts: seq<string>)
    requires forall k | 0 <= k < |ix| :: ix[k] < |parts|
    ensures |ts| == |ix|
    ensures forall k | 0 <= k < |ix| :: ts[k] == parts[ix[k]]
  {
    seq(|ix|, k requires 0 <= k < |ix| => parts[ix[k]])
  }

  /** The positions in `[lo, hi)` holding value tokens, in increasing order (the source's
      `value_indices` and `numeric_indices`). Their tokens are exactly the value tokens of
      `parts[lo..hi]` in order. */
  function ValueIndices(parts: seq<string>, lo: nat, hi: nat): (ix: seq<nat>)
    requires lo <= hi <= |parts|
    ensures forall k | 0 <= k < |ix| :: lo <= ix[k] < hi && IsValueToken(parts[ix[k]])
    ensures forall k, l | 0 <= k < l < |ix| :: ix[k] < ix[l]
    decreases hi - lo
  {
    if lo == hi then [] else (if IsValueToken(parts[lo]) then [lo] else []) + ValueIndices(parts, lo + 1, hi)
  }

  /** The tokens at the value positions are exactly the value tokens of `parts[lo..hi]`, in order:
      the index bookkeeping of the source agrees with a plain filter. */
  lemma {:induction false} ValueIndicesSelect(parts: seq<string>, lo: nat, hi: nat)
    requires lo <= hi <= |parts|
    ensures TokensAt(parts, ValueIndices(parts, lo, hi)) == Seqs.Filter(parts[lo..hi], IsValueToken)
    decreases hi - lo
  {
    if lo < hi {
      ValueIndicesSelect(parts, lo + 1, hi);
      ValueIndicesStep(parts, lo, hi);
    }
  }

  /** One step of ValueIndicesSelect: extending the window by one position on the left. */
  lemma ValueIndicesStep(parts: seq<string>, lo: nat, hi: nat)
    requires lo < hi <= |parts|
    requires TokensAt(parts, ValueIndices(parts, lo + 1, hi)) == Seqs.Filter(parts[lo + 1..hi], IsValueToken)
    ensures TokensAt(parts, ValueIndices(parts, lo, hi)) == Seqs.Filter(parts[lo..hi], IsValueToken)
  {
    var rest := ValueIndices(parts, lo + 1, hi);
    var head: seq<nat> := if IsValueToken(parts[lo]) then [lo] else [];
    assert ValueIndices(parts, lo, hi) == head + rest;
    TokensAtConcat(parts, head, rest);
    var picked := if IsValueToken(parts[lo]) then [parts[lo]] else [];
    assert TokensAt(parts, head) == picked;
    var window := parts[lo..hi];
    Seqs.FilterUnfold(window, IsValueToken);
    assert window[0] == parts[lo];
    assert window[1..] == parts[lo + 1..hi];
    assert Seqs.Filter(window, IsValueToken) == picked + Seqs.Filter(parts[lo + 1..hi], IsValueToken);
    assert TokensAt(parts, ValueIndices(parts, lo, hi)) == picked + TokensAt(parts, rest);
  }

  lemma TokensAtConcat(parts: seq<string>, a: seq<nat>, b: seq<nat>)
    requires forall k | 0 <= k < |a| :: a[k] < |parts|
    requires forall k | 0 <= k < |b| :: b[k] < |parts|
    ensures TokensAt(parts, a + b) == TokensAt(parts, a) + TokensAt(parts, b)
  {
  }

  /** Attribute `k` of the three leading values: the `k`-th value token as stored, or `N/A`. */
  function Slot(values: seq<string>, k: nat): string
  {
    if k < |values| then Marked(values[k]) else NotAvailable
  }

  // ---------------------------------------------------------------- decomposition

  /** The value tokens of `parts[lo..hi]`, in order (the source's `value_indices` and
      `numeric_indices` lists, read through). */
  function ValuesIn(parts: seq<string>, lo: nat, hi: nat): (values: seq<string>)
    requires lo <= hi <= |parts|
    ensures forall k | 0 <= k < |values| :: IsValueToken(values[k])
  {
    TokensAt(parts, ValueIndices(parts, lo, hi))
  }

  /** The grade-anchored decomposition, for a grade at `g > 0` (pdf_extractor.py:138-189). */
  function Graded(parts: seq<string>, g: nat): (a: Attributes)
    requires 0 < g < |parts|
    ensures a.grd == parts[g] && a.ernCrd == parts[g - 1]
    ensures a.grdPnt == NotAvailable || IsDigits(a.grdPnt)
    ensures a.crdPnt == NotAvailable || IsDigits(a.crdPnt)
    ensures a.cce == NotAvailable || IsValueToken(a.cce)
    ensures a.ese == NotAvailable || IsValueToken(a.ese)
    ensures a.tw == NotAvailable || IsValueToken(a.tw)
  {
    var values := ValuesIn(parts, 1, g);
    Attributes(
      cce := Slot(values, 0),
      ese := Slot(values, 1),
      tw := Slot(values, 2),
      tot := if g >= 3 then DropStar(parts[g - 3]) else NotAvailable,
      crd := if g >= 2 then parts[g - 2] else NotAvailable,
      ernCrd := parts[g - 1],
      grd := parts[g],
      grdPnt := if g + 1 < |parts| && IsDigits(parts[g + 1]) then parts[g + 1] else NotAvailable,
      crdPnt := if g + 2 < |parts| && IsDigits(parts[g + 2]) then parts[g + 2] else NotAvailable)
  }

  /** The numeric fallback (pdf_extractor.py:191-216): the first three value tokens of the whole
      line, if there are three; `grd` is whatever the grade search found. */
  function Ungraded(parts: seq<string>, grd: string): (a: Attributes)
    ensures a.grd == grd
    ensures a.tot == NotAvailable && a.crd == NotAvailable && a.ernCrd == NotAvailable
    ensures a.grdPnt == NotAvailable && a.crdPnt == NotAvailable
    ensures (a.cce == NotAvailable && a.ese == NotAvailable && a.tw == NotAvailable)
            || (IsValueToken(a.cce) && IsValueToken(a.ese) && IsValueToken(a.tw))
  {
    var values := ValuesIn(parts, 0, |parts|);
    if |values| >= 3 then
      Unknown.(grd := grd, cce := Marked(values[0]), ese := Marked(values[1]), tw := Marked(values[2]))
    else
      Unknown.(grd := grd)
  }

  /** The positional decomposition of one tokenised subject line (pdf_extractor.py:117-216).
      With the first grade at `g > 0`, the grade anchors everything: the two tokens after it are
      the grade and credit points when numeric, the three before it are earned credits, credits and
      total, and the first three value tokens of `parts[1..g]` are CCE, ESE and TW. Without a
      grade, the first three value tokens of the whole line become CCE, ESE and TW, if there are
      three. */
  function Decompose(parts: seq<string>): (a: Attributes)
    ensures a.grd == NotAvailable || a.grd in Grades
    ensures a.grdPnt == NotAvailable || IsDigits(a.grdPnt)
    ensures a.crdPnt == NotAvailable || IsDigits(a.crdPnt)
    ensures a.cce == NotAvailable || IsValueToken(a.cce)
    ensures a.ese == NotAvailable || IsValueToken(a.ese)
    ensures a.tw == NotAvailable || IsValueToken(a.tw)
  {
    var found := FirstGrade(parts);
    if found.Some? && found.value > 0 then Graded(parts, found.value)
    else if found.Some? then Ungraded(parts, parts[found.value])
    else Ungraded(parts, NotAvailable)
  }

  /** With the first grade token at `g > 0`: GRD is that token, GRD_PNT and CRD_PNT are the next
      two tokens when they are all digits, ERN_CRD, CRD and TOT are the three tokens before it
      (TOT without one leading star), and CCE, ESE, TW are the first three value tokens anywhere
      in `parts[1..g]`, which includes the TOT, CRD and ERN_CRD positions. */
  lemma GradeAnchored(parts: seq<string>, g: nat)
    requires GradeAt(parts, g) && g > 0
    ensures var a := Decompose(parts);
            var values := Seqs.Filter(parts[1..g], IsValueToken);
            && a.grd == parts[g]
            && a.grdPnt == (if g + 1 < |parts| && IsDigits(parts[g + 1]) then parts[g + 1] else NotAvailable)
            && a.crdPnt == (if g + 2 < |parts| && IsDigits(parts[g + 2]) then parts[g + 2] else NotAvailable)
            && a.ernCrd == parts[g - 1]
            && a.crd == (if g >= 2 then parts[g - 2] else NotAvailable)
            && a.tot == (if g >= 3 then DropStar(parts[g - 3]) else NotAvailable)
            && a.cce == Slot(values, 0) && a.ese == Slot(values, 1) && a.tw == Slot(values, 2)
  {
    DecomposeGraded(parts, g);
  }

  /** With the first grade at `g > 0` the grade-anchored rules apply, reading the value tokens of
      `parts[1..g]`. */
  lemma DecomposeGraded(parts: seq<string>, g: nat)
    requires GradeAt(parts, g) && g > 0
    ensures Decompose(parts) == Graded(parts, g)
    ensures ValuesIn(parts, 1, g) == Seqs.Filter(parts[1..g], IsValueToken)
  {
    FirstGradeUnique(parts, g);
    ValueIndicesSelect(parts, 1, g);
  }

  /** The first grade position is unique. */
  lemma FirstGradeUnique(parts: seq<string>, g: nat)
    requires GradeAt(parts, g)
    ensures FirstGrade(parts) == Some(g)
  {
    var found := FirstGrade(parts);
    assert found.Some? ==> found.value <= g;
    assert found.Some? ==> found.value >= g;
    assert parts[g] in Grades;
  }

  /** Without any grade token: the six grade-anchored attributes stay `N/A`, and CCE, ESE, TW are
      the first three value tokens of the line when it has at least three, else `N/A` too. */
  lemma NoGrade(parts: seq<string>)
    requires forall j | 0 <= j < |parts| :: parts[j] !in Grades
    ensures var a := Decompose(parts);
            var values := Seqs.Filter(parts, IsValueToken);
            && a.tot == NotAvailable && a.crd == NotAvailable && a.ernCrd == NotAvailable
            && a.grd == NotAvailable && a.grdPnt == NotAvailable && a.crdPnt == NotAvailable
            && (|values| >= 3 ==> a.cce == Marked(values[0]) && a.ese == Marked(values[1]) && a.tw == Marked(values[2]))
            && (|values| < 3 ==> a.cce == NotAvailable && a.ese == NotAvailable && a.tw == NotAvailable)
  {
    assert parts[0..|parts|] == parts;
    ValueIndicesSelect(parts, 0, |parts|);
  }

  /** On a selected line the first token is the code, which is never a grade, so the grade found
      (if any) is at a position `g > 0` and the grade-anchored rules apply. */
  lemma CodeIsNotGrade(line: string)
    requires IsSubjectLine(line) && IsStripped(line)
    ensures SplitWs(line)[0] !in Grades
  {
    var n := SpanNonSpace(line);
    assert n >= 5 by {
      assert !IsSpace(line[0]) && !IsSpace(line[1]) && !IsSpace(line[2]) && !IsSpace(line[3]) && !IsSpace(line[4]);
    }
    SplitWsFirst(line);
    assert |SplitWs(line)[0]| >= 5;
    assert forall t | t in Grades :: |t| <= 3;
  }

  /** The line shape without a separate term-work mark, `code CCE ESE TOT CRD ERN GRD
      GP CP`: since the value tokens are taken from everything before the grade, the total is
      read a second time as TW. */
  lemma TotalReadAsTermWork(parts: seq<string>)
    requires |parts| == 9 && parts[0] !in Grades && parts[6] in Grades
    requires forall i | 1 <= i < 6 :: IsDigits(parts[i])
    requires IsDigits(parts[7]) && IsDigits(parts[8])
    ensures Decompose(parts)
         == Attributes(parts[1], parts[2], parts[3], parts[3], parts[4], parts[5], parts[6], parts[7], parts[8])
  {
    assert GradeAt(parts, 6) by {
      forall i | 1 <= i < 6 ensures parts[i] !in Grades {
        DigitsNotGrade(parts[i]);
      }
    }
    DecomposeGraded(parts, 6);
    NumbersAreValues(parts, 1, 6);
    var window := parts[1..6];
    assert Graded(parts, 6) == Attributes(parts[1], parts[2], parts[3], parts[3], parts[4], parts[5], parts[6], parts[7], parts[8]) by {
      DigitsStoredVerbatim(parts[1]);
      DigitsStoredVerbatim(parts[2]);
      DigitsStoredVerbatim(parts[3]);
      assert window[0] == parts[1] && window[1] == parts[2] && window[2] == parts[3];
    }
  }

  /** A run of plain numbers is read entirely as value tokens. */
  lemma NumbersAreValues(parts: seq<string>, lo: nat, hi: nat)
    requires lo <= hi <= |parts|
    requires forall i | lo <= i < hi :: IsDigits(parts[i])
    ensures ValuesIn(parts, lo, hi) == parts[lo..hi]
  {
    var window := parts[lo..hi];
    forall t | t in window ensures IsValueToken(t) {
      var k :| 0 <= k < |window| && window[k] == t;
      assert t == parts[lo + k];
      DigitsStoredVerbatim(t);
    }
    Seqs.FilterAll(window, IsValueToken);
    ValueIndicesSelect(parts, lo, hi);
  }

  /** A number is never a grade: every grade starts with a letter. */
  lemma DigitsNotGrade(t: string)
    requires IsDigits(t)
    ensures t !in Grades
  {
    assert IsDigit(t[0]);
  }

  /** A plain number token is a value token and is stored as it is. */
  lemma DigitsStoredVerbatim(t: string)
    requires IsDigits(t)
    ensures IsValueToken(t) && Marked(t) == t && DropStar(t) == t
  {
    assert '*' !in t by {
      assert forall i | 0 <= i < |t| :: t[i] != '*';
    }
    RemoveCharAbsent(t, '*');
    assert !StartsWith(t, "*");
  }

  // ---------------------------------------------------------------- keys and collision-free storage

  /** The collision name `key_i`. */
  function Suffixed(key: string, i: nat): (r: string)
    ensures |r| > |key| + 1 && r[..|key|] == key && r[|key|] == '_'
  {
    key + "_" + NatToString(i)
  }

  lemma SuffixedInjective(key: string, i: nat, j: nat)
    requires i != j
    ensures Suffixed(key, i) != Suffixed(key, j)
  {
    NatToStringInjective(i, j);
    assert Suffixed(key, i)[|key| + 1..] == NatToString(i);
    assert Suffixed(key, j)[|key| + 1..] == NatToString(j);
  }

  /** The least `n >= i` whose name `key_n` is not taken. */
  function FirstFreeIndex(key: string, taken: set<string>, i: nat): (n: nat)
    ensures n >= i
    ensures Suffixed(key, n) !in taken
    ensures forall j | i <= j < n :: Suffixed(key, j) in taken
    decreases |taken|
  {
    var k := Suffixed(key, i);
    if k !in taken then i
    else
      var n := FirstFreeIndex(key, taken - {k}, i + 1);
      SuffixedInjective(key, i, n);
      n
  }

  /** The name a value is stored under: the key itself when it is unused, otherwise `key_i` for
      the least `i >= 1` whose name is unused. */
  function FreshKey(key: string, taken: set<string>): (k: string)
    ensures k !in taken
    ensures key !in taken ==> k == key
    ensures key in taken ==> exists i: nat | i >= 1 :: k == Suffixed(key, i) && forall j | 1 <= j < i :: Suffixed(key, j) in taken
  {
    if key !in taken then key else Suffixed(key, ClashIndex(key, taken))
  }

  /** The number a clashing key gets: the least `i >= 1` whose name `key_i` is unused. */
  function ClashIndex(key: string, taken: set<string>): (i: nat)
    ensures i >= 1 && Suffixed(key, i) !in taken
    ensures forall j | 1 <= j < i :: Suffixed(key, j) in taken
  {
    FirstFreeIndex(key, taken, 1)
  }

  /** The parser's state: the stored entries and the set of keys already used. */
  datatype Accumulator = Accumulator(data: map<string, string>, addedKeys: set<string>)

  /** The invariant the source keeps: the used keys are exactly the stored keys. */
  predicate Valid(acc: Accumulator)
  {
    acc.data.Keys == acc.addedKeys
  }

  /** Every used key holds an underscore, so no subject key can equal an identity column name. */
  predicate Underscored(acc: Accumulator)
  {
    forall k | k in acc.addedKeys :: '_' in k
  }

  /** Every entry of `acc` is still present, with the same value, in `r`. */
  predicate Keeps(acc: Accumulator, r: Accumulator)
  {
    forall k | k in acc.data :: k in r.data && r.data[k] == acc.data[k]
  }

  lemma KeepsTransitive(a: Accumulator, b: Accumulator, c: Accumulator)
    ensures Keeps(a, b) && Keeps(b, c) ==> Keeps(a, c)
  {
  }

  /** Stores one value under the fresh name of its key. */
  function Store(acc: Accumulator, key: string, value: string): (r: Accumulator)
    ensures r.addedKeys == acc.addedKeys + {FreshKey(key, acc.addedKeys)}
    ensures |r.addedKeys| == |acc.addedKeys| + 1
    ensures FreshKey(key, acc.addedKeys) in r.data && r.data[FreshKey(key, acc.addedKeys)] == value
    ensures Valid(acc) ==> Valid(r) && Keeps(acc, r)
    ensures Underscored(acc) && '_' in key ==> Underscored(r)
  {
    var k := FreshKey(key, acc.addedKeys);
    assert k == key || k[|key|] == '_';
    Accumulator(acc.data[k := value], acc.addedKeys + {k})
  }

  /** The names the values of `keys` get when stored one after another, starting with the names
      in `taken` used: each is the fresh name of its key among the names used so far. */
  function StoredNames(taken: set<string>, keys: seq<string>): (names: seq<string>)
    ensures |names| == |keys|
    ensures forall j | 0 <= j < |names| :: names[j] !in taken
    ensures Seqs.Distinct(names)
    decreases |keys|
  {
    if keys == [] then []
    else
      var k := FreshKey(keys[0], taken);
      var rest := StoredNames(taken + {k}, keys[1..]);
      assert k !in rest;
      [k] + rest
  }

  /** The names of a sequence, as a set. */
  function NameSet(names: seq<string>): (s: set<string>)
    ensures forall n :: n in s <==> n in names
  {
    set n | n in names
  }

  /** Name `j` is the fresh name of key `j` given the names in `taken` and the names given to the
      keys before it: the key itself when that is unused, else the least unused `key_i`. */
  lemma {:induction false} StoredNamesFresh(taken: set<string>, keys: seq<string>, j: nat)
    requires j < |keys|
    ensures StoredNames(taken, keys)[j] == FreshKey(keys[j], taken + NameSet(StoredNames(taken, keys)[..j]))
    decreases j
  {
    var names := StoredNames(taken, keys);
    var k := FreshKey(keys[0], taken);
    var rest := StoredNames(taken + {k}, keys[1..]);
    assert names == [k] + rest;
    if j == 0 {
      assert NameSet(names[..0]) == {};
      assert taken + {} == taken;
    } else {
      StoredNamesFresh(taken + {k}, keys[1..], j - 1);
      assert names[..j] == [k] + rest[..j - 1];
      NameSetCons(k, rest[..j - 1]);
      var before := taken + NameSet(names[..j]);
      assert before == (taken + {k}) + NameSet(rest[..j - 1]);
      assert names[j] == rest[j - 1] && keys[j] == keys[1..][j - 1];
    }
  }

  lemma NameSetCons(k: string, names: seq<string>)
    ensures NameSet([k] + names) == {k} + NameSet(names)
  {
    assert forall n :: n in [k] + names <==> n == k || n in names;
  }

  /** Stores the values in order, each under the fresh name of its key. */
  function StoreAll(acc: Accumulator, keys: seq<string>, values: seq<string>): (r: Accumulator)
    requires |keys| == |values|
    ensures acc.addedKeys <= r.addedKeys
    ensures |r.addedKeys| == |acc.addedKeys| + |keys|
    ensures Valid(acc) ==> Valid(r) && Keeps(acc, r)
    ensures Underscored(acc) && (forall k | k in keys :: '_' in k) ==> Underscored(r)
    ensures (Valid(acc) && Seqs.Distinct(keys) && forall k | k in keys :: k !in acc.addedKeys) ==>
              forall j | 0 <= j < |keys| :: keys[j] in r.data && r.data[keys[j]] == values[j]
    decreases |keys|
  {
    if keys == [] then acc
    else
      var next := Store(acc, keys[0], values[0]);
      assert forall k | k in keys[1..] :: k in keys;
      var r := StoreAll(next, keys[1..], values[1..]);
      FreshKeysStep(acc, keys, values, next, r);
      r
  }

  /** The step of `StoreAll` for keys that are distinct and all unused: the first key is stored
      verbatim, the rest stay distinct and unused, and a later state keeps the first entry. */
  lemma FreshKeysStep(acc: Accumulator, keys: seq<string>, values: seq<string>, next: Accumulator, r: Accumulator)
    requires |keys| == |values| && keys != []
    requires next == Store(acc, keys[0], values[0])
    requires Valid(next) ==> Keeps(next, r)
    requires (Valid(next) && Seqs.Distinct(keys[1..]) && forall k | k in keys[1..] :: k !in next.addedKeys) ==>
               forall j | 0 <= j < |keys| - 1 :: keys[1..][j] in r.data && r.data[keys[1..][j]] == values[1..][j]
    ensures (Valid(acc) && Seqs.Distinct(keys) && forall k | k in keys :: k !in acc.addedKeys) ==>
              forall j | 0 <= j < |keys| :: keys[j] in r.data && r.data[keys[j]] == values[j]
  {
    if Valid(acc) && Seqs.Distinct(keys) && forall k | k in keys :: k !in acc.addedKeys {
      assert keys[0] in keys;
      assert next.addedKeys == acc.addedKeys + {keys[0]};
      forall k | k in keys[1..] ensures k !in next.addedKeys {
        var j :| 0 <= j < |keys[1..]| && keys[1..][j] == k;
        assert keys[j + 1] == k && keys[0] != keys[j + 1];
      }
      forall j | 0 <= j < |keys| ensures keys[j] in r.data && r.data[keys[j]] == values[j] {
        if j > 0 {
          assert keys[j] == keys[1..][j - 1] && values[j] == values[1..][j - 1];
        }
      }
    }
  }

  /** The names `StoreAll` adds to the used keys are exactly `StoredNames(acc.addedKeys, keys)`. */
  lemma {:induction false} StoreAllAdds(acc: Accumulator, keys: seq<string>, values: seq<string>)
    requires |keys| == |values|
    ensures forall n :: n in StoreAll(acc, keys, values).addedKeys <==>
                          n in acc.addedKeys || n in StoredNames(acc.addedKeys, keys)
    decreases |keys|
  {
    if keys != [] {
      var next := Store(acc, keys[0], values[0]);
      var k := FreshKey(keys[0], acc.addedKeys);
      var tail := StoredNames(next.addedKeys, keys[1..]);
      StoreAllAdds(next, keys[1..], values[1..]);
      assert StoreAll(acc, keys, values) == StoreAll(next, keys[1..], values[1..]);
      assert StoredNames(acc.addedKeys, keys) == [k] + tail;
    }
  }

  /** Where `StoreAll` puts each value: value `j` under `StoredNames(acc.addedKeys, keys)[j]`,
      the fresh name of key `j` among the names used before it. */
  lemma {:induction false} StoreAllPlaces(acc: Accumulator, keys: seq<string>, values: seq<string>)
    requires |keys| == |values| && Valid(acc)
    ensures StoredUnder(StoreAll(acc, keys, values), StoredNames(acc.addedKeys, keys), values)
    decreases |keys|
  {
    var names := StoredNames(acc.addedKeys, keys);
    if keys != [] {
      var next := Store(acc, keys[0], values[0]);
      var k := FreshKey(keys[0], acc.addedKeys);
      var tail := StoredNames(next.addedKeys, keys[1..]);
      StoreAllPlaces(next, keys[1..], values[1..]);
      var r := StoreAll(next, keys[1..], values[1..]);
      assert StoreAll(acc, keys, values) == r;
      assert names == [k] + tail;
      assert Keeps(next, r);
      forall j | 0 <= j < |names| ensures names[j] in r.data && r.data[names[j]] == values[j] {
        if j > 0 {
          assert names[j] == tail[j - 1] && values[j] == values[1..][j - 1];
        }
      }
    }
  }

  /** Value `j` is stored under name `j`. */
  predicate StoredUnder(r: Accumulator, names: seq<string>, values: seq<string>)
    requires |names| == |values|
  {
    forall j | 0 <= j < |names| :: names[j] in r.data && r.data[names[j]] == values[j]
  }

  /** The nine keys of a subject line, in storage order. */
  function SubjectKeys(prefix: string): (keys: seq<string>)
    ensures |keys| == |AttributeSuffixes|
    ensures forall j | 0 <= j < |keys| :: keys[j] == prefix + AttributeSuffixes[j]
    ensures forall k | k in keys :: '_' in k
    ensures Seqs.Distinct(keys)
  {
    var keys := seq(|AttributeSuffixes|, j requires 0 <= j < |AttributeSuffixes| => prefix + AttributeSuffixes[j]);
    forall j | 0 <= j < |keys| ensures '_' in keys[j] {
      assert keys[j][|prefix|] == '_';
    }
    forall i, j | 0 <= i < j < |keys| ensures keys[i] != keys[j] {
      assert keys[i][|prefix|..] == AttributeSuffixes[i];
      assert keys[j][|prefix|..] == AttributeSuffixes[j];
    }
    keys
  }

  /** The nine values of a subject line, in the order of `SubjectKeys`. */
  function AttributeValues(a: Attributes): (vs: seq<string>)
    ensures |vs| == |AttributeSuffixes|
  {
    [a.cce, a.ese, a.tw, a.tot, a.crd, a.ernCrd, a.grd, a.grdPnt, a.crdPnt]
  }

  /** A selected line is parsed only when it has at least three whitespace tokens. */
  predicate HasData(line: string)
  {
    |SplitWs(line)| >= 3
  }

  /** One subject line: a line with fewer than three tokens is skipped; otherwise its nine
      attributes are stored under its prefix, adding exactly nine new keys. */
  function AddLine(acc: Accumulator, line: string): (r: Accumulator)
    ensures !HasData(line) ==> r == acc
    ensures HasData(line) ==> acc.addedKeys <= r.addedKeys && |r.addedKeys| == |acc.addedKeys| + 9
    ensures Valid(acc) ==> Valid(r) && Keeps(acc, r)
    ensures Underscored(acc) ==> Underscored(r)
  {
    var parts := SplitWs(line);
    if |parts| < 3 then acc
    else StoreAll(acc, SubjectKeys(ColumnPrefix(parts[0])), AttributeValues(Decompose(parts)))
  }

  function AddLines(acc: Accumulator, lines: seq<string>): (r: Accumulator)
    ensures acc.addedKeys <= r.addedKeys
    ensures |r.addedKeys| == |acc.addedKeys| + 9 * |Seqs.Filter(lines, HasData)|
    ensures Valid(acc) ==> Valid(r) && Keeps(acc, r)
    ensures Underscored(acc) ==> Underscored(r)
    decreases |lines|
  {
    if lines == [] then acc
    else
      var mid := AddLine(acc, lines[0]);
      var r := AddLines(mid, lines[1..]);
      Seqs.FilterUnfold(lines, HasData);
      KeepsTransitive(acc, mid, r);
      r
  }

  /** `parse_subjects_from_text`: every selected line with at least three tokens contributes
      exactly nine keys, every key holds an underscore, and nothing else contributes. */
  function ParseSubjects(text: string): (m: map<string, string>)
    ensures |m.Keys| == 9 * |Seqs.Filter(SubjectLines(text), HasData)|
    ensures forall k | k in m :: '_' in k
  {
    var acc := AddLines(Accumulator(map[], {}), SubjectLines(text));
    acc.data
  }

  /** One data line stores attribute `j` under the `j`-th of the names `StoredNames` gives its
      nine keys: each the key itself when unused so far, else the least unused `key_i`. */
  lemma LineStored(acc: Accumulator, line: string)
    requires Valid(acc) && HasData(line)
    ensures var parts := SplitWs(line);
            var keys := SubjectKeys(ColumnPrefix(parts[0]));
            StoredUnder(AddLine(acc, line), StoredNames(acc.addedKeys, keys), AttributeValues(Decompose(parts)))
  {
    var parts := SplitWs(line);
    StoreAllPlaces(acc, SubjectKeys(ColumnPrefix(parts[0])), AttributeValues(Decompose(parts)));
  }

  /** Parsing lines one batch after another is parsing them all at once. */
  lemma {:induction false} AddLinesConcat(acc: Accumulator, xs: seq<string>, ys: seq<string>)
    ensures AddLines(acc, xs + ys) == AddLines(AddLines(acc, xs), ys)
    decreases |xs|
  {
    if xs == [] {
      assert xs + ys == ys;
    } else {
      assert (xs + ys)[0] == xs[0] && (xs + ys)[1..] == xs[1..] + ys;
      AddLinesConcat(AddLine(acc, xs[0]), xs[1..], ys);
    }
  }

  /** Line `p` of a batch keeps its values to the end: attribute `j` is stored under the name
      `StoredNames` gives key `j` after the lines before it, and later lines never overwrite it. */
  lemma LinesKeepLine(acc: Accumulator, lines: seq<string>, p: nat)
    requires Valid(acc) && p < |lines| && HasData(lines[p])
    ensures var parts := SplitWs(lines[p]);
            var names := StoredNames(AddLines(acc, lines[..p]).addedKeys, SubjectKeys(ColumnPrefix(parts[0])));
            StoredUnder(AddLines(acc, lines), names, AttributeValues(Decompose(parts)))
  {
    SplitAt(lines, p);
    AddLinesConcat(acc, lines[..p], lines[p..]);
    var before := AddLines(acc, lines[..p]);
    var mid := AddLine(before, lines[p]);
    assert AddLines(before, lines[p..]) == AddLines(mid, lines[p + 1..]);
    LineStored(before, lines[p]);
    KeepsStored(mid, AddLines(mid, lines[p + 1..]), StoredNames(before.addedKeys, SubjectKeys(ColumnPrefix(SplitWs(lines[p])[0]))), AttributeValues(Decompose(SplitWs(lines[p]))));
  }

  lemma SplitAt(lines: seq<string>, p: nat)
    requires p < |lines|
    ensures lines == lines[..p] + lines[p..]
    ensures lines[p..][0] == lines[p] && lines[p..][1..] == lines[p + 1..]
  {
  }

  /** Entries a later state keeps are still where they were. */
  lemma KeepsStored(a: Accumulator, b: Accumulator, names: seq<string>, values: seq<string>)
    requires |names| == |values| && Keeps(a, b) && StoredUnder(a, names, values)
    ensures StoredUnder(b, names, values)
  {
  }

  /** The state of the parser before subject line `p` of a block. */
  function StateBefore(text: string, p: nat): (acc: Accumulator)
    requires p <= |SubjectLines(text)|
    ensures Valid(acc) && Underscored(acc)
  {
    AddLines(Accumulator(map[], {}), SubjectLines(text)[..p])
  }

  /** Every data line of a block survives into the parsed map: attribute `j` of subject line `p`
      is found under the name `StoredNames` gives key `j` after the lines before it, and later
      lines never overwrite it. */
  lemma ParsedLineStored(text: string, p: nat)
    ensures p < |SubjectLines(text)| && HasData(SubjectLines(text)[p]) ==>
            var parts := SplitWs(SubjectLines(text)[p]);
            var names := StoredNames(StateBefore(text, p).addedKeys, SubjectKeys(ColumnPrefix(parts[0])));
            var values := AttributeValues(Decompose(parts));
            forall j | 0 <= j < 9 :: names[j] in ParseSubjects(text) && ParseSubjects(text)[names[j]] == values[j]
  {
    if p < |SubjectLines(text)| && HasData(SubjectLines(text)[p]) {
      var empty := Accumulator(map[], {});
      LinesKeepLine(empty, SubjectLines(text), p);
      assert ParseSubjects(text) == AddLines(empty, SubjectLines(text)).data;
    }
  }

  /** A line whose nine keys are all unused stores its attributes under exactly those keys. */
  lemma FreshLineVerbatim(acc: Accumulator, line: string)
    requires Valid(acc) && HasData(line)
    requires forall k | k in SubjectKeys(ColumnPrefix(SplitWs(line)[0])) :: k !in acc.addedKeys
    ensures var parts := SplitWs(line);
            var keys := SubjectKeys(ColumnPrefix(parts[0]));
            var values := AttributeValues(Decompose(parts));
            forall j | 0 <= j < 9 :: keys[j] in AddLine(acc, line).data && AddLine(acc, line).data[keys[j]] == values[j]
  {
    var parts := SplitWs(line);
    var keys := SubjectKeys(ColumnPrefix(parts[0]));
    var values := AttributeValues(Decompose(parts));
    assert AddLine(acc, line) == StoreAll(acc, keys, values);
  }

  /** Repeating a subject line keeps the first copy under the plain keys and stores the second
      copy under `key_1`: nothing is overwritten. */
  lemma RepeatedLineSuffixed(line: string)
    requires HasData(line)
    ensures var parts := SplitWs(line);
            var keys := SubjectKeys(ColumnPrefix(parts[0]));
            var values := AttributeValues(Decompose(parts));
            var r := AddLine(AddLine(Accumulator(map[], {}), line), line);
            forall j | 0 <= j < 9 ::
              && keys[j] in r.data && r.data[keys[j]] == values[j]
              && Suffixed(keys[j], 1) in r.data && r.data[Suffixed(keys[j], 1)] == values[j]
  {
    var parts := SplitWs(line);
    var prefix := ColumnPrefix(parts[0]);
    var keys := SubjectKeys(prefix);
    var values := AttributeValues(Decompose(parts));
    var first := AddLine(Accumulator(map[], {}), line);
    FirstCopyExactly(line, keys, values);
    forall j | 0 <= j < 9 ensures Suffixed(keys[j], 1) !in first.addedKeys {
      forall i | 0 <= i < 9 ensures Suffixed(keys[j], 1) != keys[i] {
        KeyEndsInLetter(prefix, i);
        SuffixedEndsInDigit(keys[j]);
      }
    }
    SecondCopySuffixed(first, keys, values);
    var r := AddLine(first, line);
    assert r == StoreAll(first, keys, values);
    assert Keeps(first, r);
  }

  /** The first copy of a line, stored into an empty parser state, uses exactly its nine keys. */
  lemma FirstCopyExactly(line: string, keys: seq<string>, values: seq<string>)
    requires HasData(line)
    requires keys == SubjectKeys(ColumnPrefix(SplitWs(line)[0]))
    requires values == AttributeValues(Decompose(SplitWs(line)))
    ensures var first := AddLine(Accumulator(map[], {}), line);
            && Valid(first)
            && (forall k | k in first.addedKeys :: k in keys)
            && forall j | 0 <= j < 9 :: keys[j] in first.data && first.data[keys[j]] == values[j]
  {
    var empty := Accumulator(map[], {});
    var first := AddLine(empty, line);
    assert Valid(empty);
    FreshLineVerbatim(empty, line);
    var named := set k | k in keys;
    assert named <= first.addedKeys;
    Seqs.DistinctCardinality(keys);
    var extra := first.addedKeys - named;
    assert |extra| == 0;
    assert extra == {};
    forall k | k in first.addedKeys ensures k in keys {
      assert k !in extra;
    }
  }

  lemma KeyEndsInLetter(prefix: string, i: nat)
    requires i < |AttributeSuffixes|
    ensures var k := prefix + AttributeSuffixes[i]; IsUpper(k[|k| - 1])
  {
  }

  lemma SuffixedEndsInDigit(key: string)
    ensures var k := Suffixed(key, 1); k[|k| - 1] == '1'
  {
  }

  /** Appending the same suffix to different keys yields different names. */
  lemma SuffixedKeyInjective(a: string, b: string)
    requires a != b
    ensures Suffixed(a, 1) != Suffixed(b, 1)
  {
    var t := "_" + NatToString(1);
    assert Suffixed(a, 1) == a + t && Suffixed(b, 1) == b + t;
    if |a| == |b| {
      assert (a + t)[..|a|] == a && (b + t)[..|b|] == b;
    }
  }

  /** Storing `keys` again when exactly they are taken puts each value under `key_1`. */
  lemma {:induction false} SecondCopySuffixed(acc: Accumulator, keys: seq<string>, values: seq<string>)
    requires |keys| == |values| && Valid(acc) && Seqs.Distinct(keys)
    requires forall k | k in keys :: k in acc.addedKeys
    requires forall j | 0 <= j < |keys| :: Suffixed(keys[j], 1) !in acc.addedKeys
    ensures var r := StoreAll(acc, keys, values);
            forall j | 0 <= j < |keys| :: Suffixed(keys[j], 1) in r.data && r.data[Suffixed(keys[j], 1)] == values[j]
    decreases |keys|
  {
    if keys != [] {
      var k0 := Suffixed(keys[0], 1);
      assert FreshKey(keys[0], acc.addedKeys) == k0;
      var next := Store(acc, keys[0], values[0]);
      forall j | 1 <= j < |keys| ensures Suffixed(keys[j], 1) !in next.addedKeys {
        SuffixedKeyInjective(keys[0], keys[j]);
      }
      forall k | k in keys[1..] ensures k in next.addedKeys {
        assert k in keys;
      }
      SecondCopySuffixed(next, keys[1..], values[1..]);
      var r := StoreAll(next, keys[1..], values[1..]);
      assert StoreAll(acc, keys, values) == r;
      assert Keeps(next, r);
      forall j | 0 <= j < |keys| ensures Suffixed(keys[j], 1) in r.data && r.data[Suffixed(keys[j], 1)] == values[j] {
        if j > 0 {
          assert keys[1..][j - 1] == keys[j];
        }
      }
    }
  }
}
