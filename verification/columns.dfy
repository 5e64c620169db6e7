/** The column order of the output table (`save_to_excel`, pdf_extractor.py:303-341): the identity
    columns first, then the other columns grouped by subject code — the codes in string order,
    each group laid out by the attribute suffix priority list and then whatever matched no
    suffix — and finally only the columns the table actually has. */
module Columns {
  import Seqs
  import opened Text
  import LexOrder
  import opened Records

  /** A column that is not one of the eight identity columns. */
  predicate IsOtherColumn(c: string)
  {
    c !in BaseColumns
  }

  /** `other_columns` after `.sort()`: the non-identity columns of the table in string order.
      The table's columns never repeat, so sorting them is sorting without duplicates. */
  function OtherColumns(columns: seq<string>): (others: seq<string>)
    ensures LexOrder.StrictlySorted(others)
    ensures forall c | c in others :: c in columns && c !in BaseColumns
    ensures forall c | c in columns && c !in BaseColumns :: c in others
  {
    LexOrder.SortUnique(Seqs.Filter(columns, IsOtherColumn))
  }

  // ---------------------------------------------------------------- subject codes

  /** `len(col.split('_')) >= 2`: the column names a subject. */
  predicate NamesSubject(col: string)
  {
    |Split(col, '_')| >= 2
  }

  /** `col.split('_')[0]`: the subject code a column names. */
  function SubjectOf(col: string): string
  {
    Split(col, '_')[0]
  }

  /** A column names a subject exactly when it holds an underscore, and it starts with the code
      it names. */
  lemma SubjectOfPrefix(col: string)
    ensures NamesSubject(col) <==> '_' in col
    ensures StartsWith(col, SubjectOf(col))
  {
    SplitFirst(col, '_');
  }

  /** `sorted(subject_codes)`: the distinct codes named by the other columns, in string order. */
  function SubjectCodes(others: seq<string>): (codes: seq<string>)
    ensures LexOrder.StrictlySorted(codes)
    ensures forall col | col in others && '_' in col :: SubjectOf(col) in codes
    ensures forall code | code in codes :: exists col | col in others && '_' in col :: SubjectOf(col) == code
  {
    var named := Seqs.Filter(others, NamesSubject);
    var firsts := Seqs.Map(named, SubjectOf);
    Seqs.MapMembers(named, SubjectOf);
    forall col | col in others ensures NamesSubject(col) <==> '_' in col {
      SubjectOfPrefix(col);
    }
    LexOrder.SortUnique(firsts)
  }

  // ---------------------------------------------------------------- one subject group

  /** `[col for col in other_columns if col.startswith(subject)]`: every other column starting
      with the code, including columns of a longer code that begins with it. */
  function SubjectGroup(others: seq<string>, code: string): (group: seq<string>)
    ensures forall c | c in group :: c in others && StartsWith(c, code)
    ensures forall c | c in others && StartsWith(c, code) :: c in group
  {
    Seqs.Filter(others, (c: string) => StartsWith(c, code))
  }

  /** The suffix test of the source: the column ends with the suffix, or with the suffix followed
      by `_1` … `_9`. */
  predicate MatchesSuffix(col: string, suffix: string)
  {
    EndsWith(col, suffix) || exists i | 1 <= i < 10 :: EndsWith(col, suffix + "_" + NatToString(i))
  }

  /** The columns of the group collected suffix by suffix: one pass over the group per suffix, a
      column being taken in every pass whose suffix it matches. */
  function Passes(group: seq<string>, suffixes: seq<string>): (placed: seq<string>)
    ensures forall c | c in placed :: c in group
  {
    if suffixes == [] then []
    else Seqs.Filter(group, (c: string) => MatchesSuffix(c, suffixes[0])) + Passes(group, suffixes[1..])
  }

  /** How many of the suffixes a column matches. */
  function MatchCount(col: string, suffixes: seq<string>): nat
  {
    if suffixes == [] then 0
    else (if MatchesSuffix(col, suffixes[0]) then 1 else 0) + MatchCount(col, suffixes[1..])
  }

  /** A column occurs in the suffix passes once per suffix it matches (times its occurrences in the
      group). */
  lemma {:induction false} PassesMultiplicity(group: seq<string>, suffixes: seq<string>, col: string)
    ensures multiset(Passes(group, suffixes))[col] == MatchCount(col, suffixes) * multiset(group)[col]
  {
    if suffixes != [] {
      var f := (c: string) => MatchesSuffix(c, suffixes[0]);
      var taken := Seqs.Filter(group, f);
      var later := Passes(group, suffixes[1..]);
      var n := multiset(group)[col];
      var hit := if MatchesSuffix(col, suffixes[0]) then 1 else 0;
      Seqs.FilterMultiplicity(group, f, col);
      assert multiset(taken)[col] == hit * n;
      PassesMultiplicity(group, suffixes[1..], col);
      assert Passes(group, suffixes) == taken + later;
      assert multiset(taken + later)[col] == multiset(taken)[col] + multiset(later)[col];
      assert MatchCount(col, suffixes) == hit + MatchCount(col, suffixes[1..]);
      Distribute(hit, MatchCount(col, suffixes[1..]), n);
    }
  }

  lemma Distribute(a: nat, b: nat, n: nat)
    ensures (a + b) * n == a * n + b * n
  {
  }

  /** One subject group laid out: the suffix passes in priority order, then the group's columns
      that no pass took, in group order. */
  function GroupColumns(group: seq<string>): (laid: seq<string>)
    ensures forall c | c in laid :: c in group
    ensures forall c | c in group :: c in laid
  {
    var placed := Passes(group, AttributeSuffixes);
    placed + Seqs.Filter(group, (c: string) => c !in placed)
  }

  /** How often a column of the group is laid out: once per attribute suffix it matches, or once
      when it matches none. */
  lemma GroupMultiplicity(group: seq<string>, col: string)
    requires col in group && Seqs.Distinct(group)
    ensures multiset(GroupColumns(group))[col]
         == if MatchCount(col, AttributeSuffixes) == 0 then 1 else MatchCount(col, AttributeSuffixes)
  {
    var placed := Passes(group, AttributeSuffixes);
    var f := (c: string) => c !in placed;
    PassesMultiplicity(group, AttributeSuffixes, col);
    Seqs.FilterMultiplicity(group, f, col);
    DistinctOnce(group, col);
    assert GroupColumns(group) == placed + Seqs.Filter(group, f);
    assert col in placed <==> multiset(placed)[col] > 0;
  }

  // ---------------------------------------------------------------- order within a group

  /** The position of the first suffix in `suffixes` that `col` matches, or `|suffixes|` when it
      matches none. */
  function FirstSuffix(col: string, suffixes: seq<string>): (k: nat)
    ensures k <= |suffixes|
    ensures k < |suffixes| ==> MatchesSuffix(col, suffixes[k])
    ensures forall j | 0 <= j < k :: !MatchesSuffix(col, suffixes[j])
    decreases |suffixes|
  {
    if suffixes == [] then 0
    else if MatchesSuffix(col, suffixes[0]) then 0
    else 1 + FirstSuffix(col, suffixes[1..])
  }

  /** `a` occurs in `xs`, and its first occurrence comes before any occurrence of `b`. */
  predicate Before(xs: seq<string>, a: string, b: string)
  {
    exists i | 0 <= i < |xs| :: xs[i] == a && b !in xs[..i]
  }

  lemma BeforeAppend(xs: seq<string>, ys: seq<string>, a: string, b: string)
    requires Before(xs, a, b)
    ensures Before(xs + ys, a, b)
  {
    var i :| 0 <= i < |xs| && xs[i] == a && b !in xs[..i];
    assert (xs + ys)[..i] == xs[..i];
    assert (xs + ys)[i] == a;
  }

  lemma BeforePrepend(xs: seq<string>, ys: seq<string>, a: string, b: string)
    requires b !in xs && Before(ys, a, b)
    ensures Before(xs + ys, a, b)
  {
    var i :| 0 <= i < |ys| && ys[i] == a && b !in ys[..i];
    assert (xs + ys)[..|xs| + i] == xs + ys[..i];
    assert (xs + ys)[|xs| + i] == a;
  }

  lemma BeforeHead(xs: seq<string>, ys: seq<string>, a: string, b: string)
    requires a in xs && b !in xs
    ensures Before(xs + ys, a, b)
  {
    var i :| 0 <= i < |xs| && xs[i] == a;
    assert (xs + ys)[..i] == xs[..i];
    assert (xs + ys)[i] == a;
    assert b !in xs[..i] by {
      forall j | 0 <= j < i ensures xs[..i][j] != b {
        assert xs[..i][j] == xs[j];
      }
    }
  }

  /** A column is placed by the suffix passes exactly when it is in the group and matches some
      suffix. */
  lemma {:induction false} PassesMembers(group: seq<string>, suffixes: seq<string>, col: string)
    ensures col in Passes(group, suffixes) <==> col in group && FirstSuffix(col, suffixes) < |suffixes|
    decreases |suffixes|
  {
    if suffixes != [] {
      PassesMembers(group, suffixes[1..], col);
    }
  }

  /** In the suffix passes, a column whose first matched suffix comes earlier is placed before a
      column whose first matched suffix comes later or that matches none. */
  lemma {:induction false} PassesBefore(group: seq<string>, suffixes: seq<string>, a: string, b: string)
    requires a in group
    requires FirstSuffix(a, suffixes) < FirstSuffix(b, suffixes)
    ensures Before(Passes(group, suffixes), a, b)
    decreases |suffixes|
  {
    var f := (c: string) => MatchesSuffix(c, suffixes[0]);
    var first := Seqs.Filter(group, f);
    assert Passes(group, suffixes) == first + Passes(group, suffixes[1..]);
    assert !MatchesSuffix(b, suffixes[0]);
    assert b !in first;
    if MatchesSuffix(a, suffixes[0]) {
      assert a in first;
      BeforeHead(first, Passes(group, suffixes[1..]), a, b);
    } else {
      PassesBefore(group, suffixes[1..], a, b);
      BeforePrepend(first, Passes(group, suffixes[1..]), a, b);
    }
  }

  /** The order within a laid-out group follows the suffix priority list: a column of the group
      whose first matched suffix comes earlier in the list is laid out before a column whose first
      matched suffix comes later, or that matches no suffix at all. */
  lemma GroupOrder(group: seq<string>, a: string, b: string)
    requires a in group
    requires FirstSuffix(a, AttributeSuffixes) < FirstSuffix(b, AttributeSuffixes)
    ensures Before(GroupColumns(group), a, b)
  {
    var placed := Passes(group, AttributeSuffixes);
    PassesBefore(group, AttributeSuffixes, a, b);
    BeforeAppend(placed, Seqs.Filter(group, (c: string) => c !in placed), a, b);
  }

  /** Every column that matches no suffix is laid out after every column that matches one. */
  lemma UnmatchedLast(group: seq<string>, i: nat, j: nat)
    requires i < |GroupColumns(group)| && j < |GroupColumns(group)|
    requires FirstSuffix(GroupColumns(group)[i], AttributeSuffixes) < |AttributeSuffixes|
    requires FirstSuffix(GroupColumns(group)[j], AttributeSuffixes) == |AttributeSuffixes|
    ensures i < j
  {
    var laid := GroupColumns(group);
    var placed := Passes(group, AttributeSuffixes);
    var rest := Seqs.Filter(group, (c: string) => c !in placed);
    assert laid == placed + rest;
    PassesMembers(group, AttributeSuffixes, laid[i]);
    PassesMembers(group, AttributeSuffixes, laid[j]);
  }

  lemma DistinctOnce(xs: seq<string>, x: string)
    requires Seqs.Distinct(xs) && x in xs
    ensures multiset(xs)[x] == 1
  {
    var i :| 0 <= i < |xs| && xs[i] == x;
    assert xs == xs[..i] + [x] + xs[i + 1..];
    assert x !in xs[..i] by {
      forall j | 0 <= j < i ensures xs[..i][j] != x {
        assert xs[..i][j] == xs[j];
      }
    }
    var tail := xs[i + 1..];
    assert x !in tail by {
      forall j | 0 <= j < |tail| ensures tail[j] != x {
        assert tail[j] == xs[i + 1 + j];
      }
    }
  }

  // ---------------------------------------------------------------- all groups

  /** The laid-out group of one code. */
  function LaidGroup(others: seq<string>, code: string): seq<string>
  {
    GroupColumns(SubjectGroup(others, code))
  }

  /** The groups of the codes, one after another. */
  function OrderedGroups(others: seq<string>, codes: seq<string>): seq<string>
  {
    Seqs.Flatten(Seqs.Map(codes, (code: string) => LaidGroup(others, code)))
  }

  /** The laid-out groups hold exactly the other columns that start with one of the codes. */
  lemma OrderedGroupsMembers(others: seq<string>, codes: seq<string>)
    ensures forall c | c in OrderedGroups(others, codes) :: c in others && exists k | k in codes :: StartsWith(c, k)
    ensures forall c, k | c in others && k in codes && StartsWith(c, k) :: c in OrderedGroups(others, codes)
  {
    var groups := Seqs.Map(codes, (code: string) => LaidGroup(others, code));
    Seqs.FlattenMembers(groups);
    forall c | c in OrderedGroups(others, codes) ensures c in others && exists k | k in codes :: StartsWith(c, k) {
      var i :| 0 <= i < |groups| && c in groups[i];
      assert codes[i] in codes;
    }
    forall c, k | c in others && k in codes && StartsWith(c, k) ensures c in OrderedGroups(others, codes) {
      var i :| 0 <= i < |codes| && codes[i] == k;
      assert c in groups[i];
    }
  }

  /** `ordered_other_columns`. */
  function OrderedOther(others: seq<string>): seq<string>
  {
    OrderedGroups(others, SubjectCodes(others))
  }

  /** Membership in the table's columns, as a test. */
  function PresentIn(columns: seq<string>): string -> bool
  {
    (c: string) => c in columns
  }

  /** `existing_columns`: the identity columns, then the ordered subject columns, keeping only
      columns of the table. `columns` is the table's column list before reordering. */
  function FinalColumns(columns: seq<string>): (final: seq<string>)
    ensures forall c | c in final :: c in columns
  {
    Seqs.Filter(BaseColumns + OrderedOther(OtherColumns(columns)), PresentIn(columns))
  }

  // ---------------------------------------------------------------- properties of the order

  /** The final order is the identity columns the table has, in their fixed order, followed by
      the ordered subject groups. */
  lemma FinalLayout(columns: seq<string>)
    ensures FinalColumns(columns)
         == Seqs.Filter(BaseColumns, PresentIn(columns)) + OrderedOther(OtherColumns(columns))
  {
    var others := OtherColumns(columns);
    var ordered := OrderedOther(others);
    Seqs.FilterConcat(BaseColumns, ordered, PresentIn(columns));
    OrderedGroupsMembers(others, SubjectCodes(others));
    assert forall c | c in ordered :: c in others;
    Seqs.FilterAll(ordered, PresentIn(columns));
  }

  /** Which columns survive the reordering: the identity columns the table has, and every other
      column of the table that starts with some subject code. */
  lemma FinalMembers(columns: seq<string>, c: string)
    ensures var codes := SubjectCodes(OtherColumns(columns));
            c in FinalColumns(columns)
            <==> c in columns && (c in BaseColumns || exists k | k in codes :: StartsWith(c, k))
  {
    FinalLayout(columns);
    OrderedGroupsMembers(OtherColumns(columns), SubjectCodes(OtherColumns(columns)));
  }

  /** Every column with an underscore is kept: it starts with the code it names itself. */
  lemma UnderscoredKept(columns: seq<string>, c: string)
    requires c in columns && '_' in c
    ensures c in FinalColumns(columns)
  {
    var others := OtherColumns(columns);
    BaseColumnsHaveNoUnderscore();
    SubjectOfPrefix(c);
    FinalMembers(columns, c);
    assert SubjectOf(c) in SubjectCodes(others);
  }

  /** A non-identity column that no subject code prefixes is silently dropped. */
  lemma UnprefixedDropped(columns: seq<string>, c: string)
    requires c in columns && c !in BaseColumns
    requires forall k | k in SubjectCodes(OtherColumns(columns)) :: !StartsWith(c, k)
    ensures c !in FinalColumns(columns)
  {
    FinalMembers(columns, c);
  }

  /** The final order depends only on which columns the table has, not on their order. */
  lemma OrderIrrelevant(a: seq<string>, b: seq<string>)
    requires forall c | c in a :: c in b
    requires forall c | c in b :: c in a
    ensures FinalColumns(a) == FinalColumns(b)
  {
    var fa := Seqs.Filter(a, IsOtherColumn);
    var fb := Seqs.Filter(b, IsOtherColumn);
    LexOrder.SortUniqueIgnoresOrder(fa, fb);
    assert OtherColumns(a) == OtherColumns(b);
    var all := BaseColumns + OrderedOther(OtherColumns(a));
    Seqs.FilterCongruent(all, PresentIn(a), PresentIn(b));
  }

  // ---------------------------------------------------------------- repeated columns

  /** Laying out the groups keeps every occurrence of each group. */
  lemma OrderedGroupsMultiplicity(others: seq<string>, codes: seq<string>, i: nat, c: string)
    requires i < |codes|
    ensures multiset(OrderedGroups(others, codes))[c] >= multiset(LaidGroup(others, codes[i]))[c]
  {
    var groups := Seqs.Map(codes, (code: string) => LaidGroup(others, code));
    Seqs.FlattenCount(groups, i, c);
  }

  /** A column in the groups of two different codes occurs once for each of them. */
  lemma OrderedGroupsTwice(others: seq<string>, codes: seq<string>, i: nat, j: nat, c: string)
    requires i < j < |codes|
    ensures multiset(OrderedGroups(others, codes))[c]
         >= multiset(LaidGroup(others, codes[i]))[c] + multiset(LaidGroup(others, codes[j]))[c]
  {
    var groups := Seqs.Map(codes, (code: string) => LaidGroup(others, code));
    Seqs.FlattenCountTwo(groups, i, j, c);
  }

  /** A column of the table occurs in the final list at least as often as in the ordered groups. */
  lemma FinalKeepsOccurrences(columns: seq<string>, c: string)
    requires c in columns
    ensures multiset(FinalColumns(columns))[c] >= multiset(OrderedOther(OtherColumns(columns)))[c]
  {
    var ordered := OrderedOther(OtherColumns(columns));
    Seqs.FilterMultiplicity(BaseColumns + ordered, PresentIn(columns), c);
  }

  /** Dropping a prefix of the suffix list can only lose matches. */
  lemma {:induction false} MatchCountSuffix(col: string, suffixes: seq<string>, k: nat)
    requires k <= |suffixes|
    ensures MatchCount(col, suffixes) >= MatchCount(col, suffixes[k..])
  {
    if k > 0 {
      MatchCountSuffix(col, suffixes[1..], k - 1);
      assert suffixes[1..][k - 1..] == suffixes[k..];
    }
  }

  lemma LastChar(col: string, p: string)
    ensures EndsWith(col, p) && |p| > 0 ==> col[|col| - 1] == p[|p| - 1]
  {
  }

  /** A column matching none of the suffixes counts no match. */
  lemma {:induction false} NoMatchNoCount(col: string, suffixes: seq<string>)
    requires forall j | 0 <= j < |suffixes| :: !MatchesSuffix(col, suffixes[j])
    ensures MatchCount(col, suffixes) == 0
    decreases |suffixes|
  {
    if suffixes != [] {
      NoMatchNoCount(col, suffixes[1..]);
    }
  }

  /** No attribute suffix ends in `0`: each ends in a capital letter. */
  lemma SuffixesEndInLetters()
    ensures forall j | 0 <= j < |AttributeSuffixes| :: EndsOtherThanZero(AttributeSuffixes[j])
  {
    var s := AttributeSuffixes;
    assert s[0] == "_CCE" && s[1] == "_ESE" && s[2] == "_TW";
    assert s[3] == "_TOT" && s[4] == "_CRD" && s[5] == "_ERN_CRD";
    assert s[6] == "_GRD" && s[7] == "_GRD_PNT" && s[8] == "_CRD_PNT";
  }

  predicate EndsOtherThanZero(s: string)
  {
    |s| > 0 && s[|s| - 1] != '0'
  }

  /** A column ending in `0` matches no suffix that itself does not end in `0`. */
  lemma ZeroEndedMisses(col: string, s: string)
    requires |col| > 0 && col[|col| - 1] == '0'
    requires EndsOtherThanZero(s)
    ensures !MatchesSuffix(col, s)
  {
    LastChar(col, s);
    forall i | 1 <= i < 10 ensures !EndsWith(col, s + "_" + NatToString(i)) {
      var t := s + "_" + NatToString(i);
      assert NatToString(i) == [DigitChar(i)];
      assert t[|t| - 1] == DigitChar(i) != '0';
      LastChar(col, t);
    }
  }

  /** A column ending in `0` matches none of a list of suffixes that do not end in `0`. */
  lemma ZeroEndedMissesAll(col: string, suffixes: seq<string>)
    requires |col| > 0 && col[|col| - 1] == '0'
    requires forall j | 0 <= j < |suffixes| :: EndsOtherThanZero(suffixes[j])
    ensures MatchCount(col, suffixes) == 0
    ensures FirstSuffix(col, suffixes) == |suffixes|
  {
    forall j | 0 <= j < |suffixes| ensures !MatchesSuffix(col, suffixes[j]) {
      ZeroEndedMisses(col, suffixes[j]);
    }
    NoMatchNoCount(col, suffixes);
  }

  /** The suffix test only looks for the copy numbers 1 to 9: a column ending in `0`, such as the
      tenth copy `<key>_10` of a repeated subject line, matches no attribute suffix, and so is
      laid out with the unmatched columns at the end of its group. */
  lemma ZeroEndedUnmatched(col: string)
    requires |col| > 0 && col[|col| - 1] == '0'
    ensures MatchCount(col, AttributeSuffixes) == 0
    ensures FirstSuffix(col, AttributeSuffixes) == |AttributeSuffixes|
  {
    SuffixesEndInLetters();
    ZeroEndedMissesAll(col, AttributeSuffixes);
  }

  /** An earned-credits column also ends with the credits suffix: it matches two suffixes. */
  lemma ErnCreditMatchesTwo(col: string)
    requires EndsWith(col, "_ERN_CRD")
    ensures MatchCount(col, AttributeSuffixes) >= 2
  {
    var s := AttributeSuffixes;
    assert s[4] == "_CRD" && s[5] == "_ERN_CRD";
    assert col[|col| - 4..] == col[|col| - 8..][4..];
    assert EndsWith(col, "_CRD");
    MatchCountSuffix(col, s, 4);
    assert s[4..][0] == s[4] && s[4..][1..] == s[5..];
    assert s[5..][0] == s[5];
  }

  /** Every earned-credits column of the table is listed at least twice in the final order: once
      in the credits pass, whose suffix it also ends with, and once in its own pass. */
  lemma ErnCreditListedTwice(columns: seq<string>, col: string)
    requires col in columns && EndsWith(col, "_ERN_CRD")
    ensures multiset(FinalColumns(columns))[col] >= 2
  {
    var others := OtherColumns(columns);
    var codes := SubjectCodes(others);
    assert col[|col| - 8] == '_';
    BaseColumnsHaveNoUnderscore();
    assert col in others;
    SubjectOfPrefix(col);
    var code := SubjectOf(col);
    assert code in codes;
    var i :| 0 <= i < |codes| && codes[i] == code;
    var group := SubjectGroup(others, code);
    LexOrder.SortedDistinct(others);
    Seqs.FilterDistinct(others, (c: string) => StartsWith(c, code));
    ErnCreditMatchesTwo(col);
    GroupMultiplicity(group, col);
    OrderedGroupsMultiplicity(others, codes, i, col);
    FinalKeepsOccurrences(columns, col);
  }

  /** A column that two subject codes both prefix (such as `MTH-10_CCE` beside a code `MTH-1`)
      is laid out in both groups, so it is listed at least twice. */
  lemma SharedPrefixListedTwice(columns: seq<string>, col: string, i: nat, j: nat)
    requires var codes := SubjectCodes(OtherColumns(columns));
             col in columns && col !in BaseColumns && i < j < |codes|
             && StartsWith(col, codes[i]) && StartsWith(col, codes[j])
    ensures multiset(FinalColumns(columns))[col] >= 2
  {
    var others := OtherColumns(columns);
    var codes := SubjectCodes(others);
    LexOrder.SortedDistinct(others);
    var gi := SubjectGroup(others, codes[i]);
    var gj := SubjectGroup(others, codes[j]);
    Seqs.FilterDistinct(others, (c: string) => StartsWith(c, codes[i]));
    Seqs.FilterDistinct(others, (c: string) => StartsWith(c, codes[j]));
    GroupMultiplicity(gi, col);
    GroupMultiplicity(gj, col);
    OrderedGroupsTwice(others, codes, i, j, col);
    FinalKeepsOccurrences(columns, col);
  }
}
