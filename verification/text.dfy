/** The Python string primitives the extractor relies on: whitespace stripping, splitting on a
    character and on whitespace runs, `isdigit`, `startswith`/`endswith`, `in`, `replace` with an
    empty replacement, and `str` of a non-negative integer. Only ASCII whitespace and digits are
    modelled. */
module Text {
  import Seqs

  /** The ASCII characters Python's `str.strip()` and the regex class `\s` treat as whitespace. */
  predicate IsSpace(c: char)
  {
    c == ' ' || c == '\t' || c == '\n' || c == '\r' || c == '\U{0B}' || c == '\U{0C}' || '\U{1C}' <= c <= '\U{1F}'
  }

  predicate NotSpace(c: char)
  {
    !IsSpace(c)
  }

  predicate IsDigit(c: char)
  {
    '0' <= c <= '9'
  }

  predicate IsUpper(c: char)
  {
    'A' <= c <= 'Z'
  }

  /** `s.isdigit()`: non-empty and made of digits only. */
  predicate IsDigits(s: string)
  {
    |s| > 0 && forall i | 0 <= i < |s| :: IsDigit(s[i])
  }

  predicate StartsWith(s: string, p: string)
  {
    |p| <= |s| && s[..|p|] == p
  }

  predicate EndsWith(s: string, p: string)
  {
    |p| <= |s| && s[|s| - |p|..] == p
  }

  /** `p in s` for strings: `p` occurs somewhere in `s`. */
  predicate Contains(s: string, p: string)
  {
    exists i | 0 <= i <= |s| - |p| :: OccursAt(s, p, i)
  }

  /** `p` occurs in `s` starting at index `i`. */
  predicate OccursAt(s: string, p: string, i: int)
  {
    0 <= i && i + |p| <= |s| && s[i..i + |p|] == p
  }

  /** Neither end is whitespace. */
  predicate IsStripped(s: string)
  {
    s == [] || (!IsSpace(s[0]) && !IsSpace(s[|s| - 1]))
  }

  predicate AllSpace(s: string)
  {
    forall i | 0 <= i < |s| :: IsSpace(s[i])
  }

  predicate NoSpace(s: string)
  {
    forall i | 0 <= i < |s| :: !IsSpace(s[i])
  }

  // ---------------------------------------------------------------- strip

  function TrimStart(s: string): (r: string)
    ensures |r| <= |s| && r == s[|s| - |r|..]
    ensures r == [] || !IsSpace(r[0])
    ensures AllSpace(s[..|s| - |r|])
  {
    if s != [] && IsSpace(s[0]) then TrimStart(s[1..]) else s
  }

  function TrimEnd(s: string): (r: string)
    ensures |r| <= |s| && r == s[..|r|]
    ensures r == [] || !IsSpace(r[|r| - 1])
    ensures AllSpace(s[|r|..])
  {
    if s != [] && IsSpace(s[|s| - 1]) then TrimEnd(s[..|s| - 1]) else s
  }

  /** `s.strip()`: the result has no whitespace at either end, and it is what remains of `s`
      once a whitespace-only head and a whitespace-only tail are cut off. */
  function Strip(s: string): (r: string)
    ensures IsStripped(r)
    ensures exists i :: StrippedAt(s, r, i)
  {
    var t := TrimStart(s);
    var r := TrimEnd(t);
    var i := |s| - |t|;
    assert s[i..i + |r|] == r;
    assert s[i + |r|..] == t[|r|..];
    assert StrippedAt(s, r, i);
    r
  }

  /** `r` sits in `s` at index `i`, with only whitespace before and after it. */
  predicate StrippedAt(s: string, r: string, i: int)
  {
    0 <= i && i + |r| <= |s| && s[i..i + |r|] == r && AllSpace(s[..i]) && AllSpace(s[i + |r|..])
  }

  /** Stripping an already stripped string changes nothing, so `Strip` is idempotent. */
  lemma StripStripped(s: string)
    requires IsStripped(s)
    ensures Strip(s) == s
  {
  }

  lemma StripIdempotent(s: string)
    ensures Strip(Strip(s)) == Strip(s)
  {
    StripStripped(Strip(s));
  }

  // ---------------------------------------------------------------- split on a character

  /** Index of the first `c` in `s`. */
  function IndexOf(s: string, c: char): (i: nat)
    requires c in s
    ensures i < |s| && s[i] == c && c !in s[..i]
  {
    if s[0] == c then 0 else 1 + IndexOf(s[1..], c)
  }

  /** `s.split(sep)` for a one-character separator: the pieces between consecutive separators. */
  function Split(s: string, sep: char): (r: seq<string>)
    ensures |r| >= 1
    ensures forall i | 0 <= i < |r| :: sep !in r[i]
    decreases |s|
  {
    if sep !in s then [s]
    else
      var i := IndexOf(s, sep);
      [s[..i]] + Split(s[i + 1..], sep)
  }

  /** `s.split(sep)` has a second piece exactly when `sep` occurs, and its first piece is always
      a prefix of `s`: the text before the first separator. */
  lemma SplitFirst(s: string, sep: char)
    ensures |Split(s, sep)| >= 2 <==> sep in s
    ensures StartsWith(s, Split(s, sep)[0])
    ensures sep !in Split(s, sep)[0]
  {
    if sep in s {
      var i := IndexOf(s, sep);
      assert Split(s, sep)[0] == s[..i];
    } else {
      assert s[..|s|] == s;
    }
  }

  /** `sep.join(parts)`. */
  function Join(parts: seq<string>, sep: char): string
  {
    if parts == [] then []
    else if |parts| == 1 then parts[0]
    else parts[0] + [sep] + Join(parts[1..], sep)
  }

  /** Splitting on a separator and joining the pieces back with it restores the text. */
  lemma {:induction false} JoinSplit(s: string, sep: char)
    ensures Join(Split(s, sep), sep) == s
    decreases |s|
  {
    if sep in s {
      var i := IndexOf(s, sep);
      JoinSplit(s[i + 1..], sep);
      var rest := Split(s[i + 1..], sep);
      assert Split(s, sep) == [s[..i]] + rest;
      assert s == s[..i] + [sep] + s[i + 1..];
    }
  }

  // ---------------------------------------------------------------- split on whitespace runs

  /** Length of the longest prefix of `s` without whitespace. */
  function SpanNonSpace(s: string): (n: nat)
    ensures n <= |s|
    ensures NoSpace(s[..n])
    ensures n < |s| ==> IsSpace(s[n])
  {
    if s == [] || IsSpace(s[0]) then 0 else 1 + SpanNonSpace(s[1..])
  }

  /** Length of the longest whitespace-only prefix of `s`. */
  function SpanSpace(s: string): (n: nat)
    ensures n <= |s|
    ensures AllSpace(s[..n])
    ensures n < |s| ==> !IsSpace(s[n])
  {
    if s == [] || !IsSpace(s[0]) then 0 else 1 + SpanSpace(s[1..])
  }

  /** `re.split(r'\s+', s)`: the pieces between maximal whitespace runs (a leading or trailing
      run yields an empty first or last piece, as in Python). */
  function SplitWs(s: string): (r: seq<string>)
    ensures |r| >= 1
    ensures forall i | 0 <= i < |r| :: NoSpace(r[i])
    decreases |s|
  {
    var n := SpanNonSpace(s);
    if n == |s| then [s]
    else
      var rest := s[n..];
      var m := SpanSpace(rest);
      [s[..n]] + SplitWs(rest[m..])
  }

  /** Whitespace-only text has no non-whitespace characters. */
  lemma {:induction false} FilterSpaces(s: string)
    requires AllSpace(s)
    ensures Seqs.Filter(s, NotSpace) == []
  {
    if s != [] {
      FilterSpaces(s[1..]);
    }
  }

  /** Whitespace-free text keeps all its characters. */
  lemma {:induction false} FilterNoSpace(s: string)
    requires NoSpace(s)
    ensures Seqs.Filter(s, NotSpace) == s
  {
    if s != [] {
      FilterNoSpace(s[1..]);
    }
  }

  /** A word followed by a whitespace gap contributes exactly the word's characters. */
  lemma FilterWordGap(head: string, gap: string, tail: string)
    requires NoSpace(head) && AllSpace(gap)
    ensures Seqs.Filter(head + (gap + tail), NotSpace) == head + Seqs.Filter(tail, NotSpace)
  {
    FilterNoSpace(head);
    FilterSpaces(gap);
    Seqs.FilterConcat(head, gap + tail, NotSpace);
    assert Seqs.Filter(head + (gap + tail), NotSpace) == head + Seqs.Filter(gap + tail, NotSpace);
    Seqs.FilterConcat(gap, tail, NotSpace);
    assert Seqs.Filter(gap + tail, NotSpace) == Seqs.Filter(tail, NotSpace);
  }

  /** The pieces of `SplitWs`, concatenated, are exactly the non-whitespace characters of `s`. */
  lemma {:induction false} SplitWsKeepsText(s: string)
    ensures Seqs.Flatten(SplitWs(s)) == Seqs.Filter(s, NotSpace)
    decreases |s|
  {
    var n := SpanNonSpace(s);
    if n == |s| {
      assert s[..n] == s;
      FilterNoSpace(s);
      assert SplitWs(s) == [s];
      assert [s][1..] == [];
      assert Seqs.Flatten([s]) == s + Seqs.Flatten([]);
    } else {
      var head, rest := s[..n], s[n..];
      var m := SpanSpace(rest);
      var gap, tail := rest[..m], rest[m..];
      var pieces := SplitWs(tail);
      assert Seqs.Flatten(SplitWs(s)) == head + Seqs.Flatten(pieces) by {
        assert SplitWs(s) == [head] + pieces;
        Seqs.FlattenCons(head, pieces);
      }
      assert Seqs.Filter(s, NotSpace) == head + Seqs.Filter(tail, NotSpace) by {
        assert rest == gap + tail;
        assert s == head + rest;
        FilterWordGap(head, gap, tail);
      }
      SplitWsKeepsText(tail);
    }
  }

  /** On a non-empty stripped line every piece is non-empty: the pieces are its words. */
  lemma {:induction false} SplitWsWords(s: string)
    requires s != [] && IsStripped(s)
    ensures forall i | 0 <= i < |SplitWs(s)| :: SplitWs(s)[i] != []
    decreases |s|
  {
    var n := SpanNonSpace(s);
    if n < |s| {
      var rest := s[n..];
      var m := SpanSpace(rest);
      assert rest[|rest| - 1] == s[|s| - 1];
      assert m < |rest|;
      var tail := rest[m..];
      assert tail[|tail| - 1] == s[|s| - 1];
      SplitWsWords(tail);
    }
  }

  /** The first piece of `SplitWs(s)` is the longest whitespace-free prefix of `s`. */
  lemma SplitWsFirst(s: string)
    ensures SplitWs(s)[0] == s[..SpanNonSpace(s)]
  {
  }

  /** Words separated by whitespace runs: `ws[0] + gaps[0] + ws[1] + … + ws[|ws| - 1]`. */
  function Spaced(ws: seq<string>, gaps: seq<string>): string
    requires |ws| == |gaps| + 1
    decreases |gaps|
  {
    if gaps == [] then ws[0] else ws[0] + gaps[0] + Spaced(ws[1..], gaps[1..])
  }

  /** `SplitWs` breaks exactly at the whitespace runs: non-empty words separated by non-empty
      whitespace runs split back into exactly those words. */
  lemma {:induction false} SplitWsSpaced(ws: seq<string>, gaps: seq<string>)
    requires |ws| == |gaps| + 1
    requires forall i | 0 <= i < |ws| :: ws[i] != [] && NoSpace(ws[i])
    requires forall i | 0 <= i < |gaps| :: gaps[i] != [] && AllSpace(gaps[i])
    ensures SplitWs(Spaced(ws, gaps)) == ws
    decreases |gaps|
  {
    var w := ws[0];
    if gaps == [] {
      SpanNonSpaceWord(w, []);
      assert w + [] == w;
    } else {
      var t := Spaced(ws[1..], gaps[1..]);
      SpacedStart(ws[1..], gaps[1..]);
      assert ws[1] in ws[1..];
      SplitWsStep(w, gaps[0], t);
      SplitWsSpaced(ws[1..], gaps[1..]);
      assert ws == [w] + ws[1..];
    }
  }

  /** A word, a whitespace run and text starting with a non-whitespace character split into the
      word followed by the pieces of the text. */
  lemma SplitWsStep(w: string, g: string, t: string)
    requires w != [] && NoSpace(w) && g != [] && AllSpace(g)
    requires t != [] && !IsSpace(t[0])
    ensures SplitWs(w + g + t) == [w] + SplitWs(t)
  {
    var s := w + (g + t);
    assert w + g + t == s;
    SpanNonSpaceWord(w, g + t);
    assert s[|w|..] == g + t;
    SpanSpaceGap(g, t);
    assert (g + t)[|g|..] == t;
    assert s[..|w|] == w;
  }

  /** `Spaced` starts with the first word. */
  lemma SpacedStart(ws: seq<string>, gaps: seq<string>)
    requires |ws| == |gaps| + 1 && ws[0] != []
    ensures Spaced(ws, gaps) != [] && Spaced(ws, gaps)[0] == ws[0][0]
  {
  }

  /** A whitespace-free word followed by nothing or by whitespace spans exactly the word. */
  lemma {:induction false} SpanNonSpaceWord(w: string, t: string)
    requires NoSpace(w) && (t == [] || IsSpace(t[0]))
    ensures SpanNonSpace(w + t) == |w|
    decreases |w|
  {
    if w != [] {
      assert (w + t)[1..] == w[1..] + t;
      SpanNonSpaceWord(w[1..], t);
    }
  }

  /** A whitespace run followed by nothing or by a non-whitespace character spans exactly the run. */
  lemma {:induction false} SpanSpaceGap(g: string, t: string)
    requires AllSpace(g) && (t == [] || !IsSpace(t[0]))
    ensures SpanSpace(g + t) == |g|
    decreases |g|
  {
    if g != [] {
      assert (g + t)[1..] == g[1..] + t;
      SpanSpaceGap(g[1..], t);
    }
  }

  // ---------------------------------------------------------------- character and substring removal

  /** `s.replace(c, '')` for a single character. */
  function RemoveChar(s: string, c: char): (r: string)
    ensures c !in r
    ensures forall x | x in r :: x in s
    ensures forall x | x in s && x != c :: x in r
  {
    if s == [] then [] else (if s[0] == c then [] else [s[0]]) + RemoveChar(s[1..], c)
  }

  /** Removing a character keeps every other character as often as it occurs. */
  lemma {:induction false} RemoveCharCounts(s: string, c: char)
    ensures multiset(RemoveChar(s, c)) == multiset(s)[c := 0]
  {
    if s != [] {
      RemoveCharCounts(s[1..], c);
      assert s == [s[0]] + s[1..];
      assert multiset(s) == multiset{s[0]} + multiset(s[1..]);
    }
  }

  /** Removing a character keeps the other characters in their order: it works piece by piece. */
  lemma {:induction false} RemoveCharConcat(a: string, b: string, c: char)
    ensures RemoveChar(a + b, c) == RemoveChar(a, c) + RemoveChar(b, c)
  {
    if a == [] {
      assert a + b == b;
    } else {
      var ab := a + b;
      assert ab[0] == a[0];
      assert ab[1..] == a[1..] + b;
      RemoveCharConcat(a[1..], b, c);
      var h := if a[0] == c then [] else [a[0]];
      assert RemoveChar(ab, c) == h + (RemoveChar(a[1..], c) + RemoveChar(b, c));
      assert RemoveChar(a, c) == h + RemoveChar(a[1..], c);
    }
  }

  /** A single character is dropped exactly when it is the removed one. */
  lemma RemoveCharSingle(x: char, c: char)
    ensures RemoveChar([x], c) == if x == c then [] else [x]
  {
    assert [x][1..] == [];
  }

  /** `s.replace(pat, '')`: deletes the non-overlapping occurrences of `pat` found scanning left to right. */
  function DeleteAll(s: string, pat: string): (r: string)
    requires |pat| > 0
    ensures |r| <= |s|
    decreases |s|
  {
    if |s| < |pat| then s
    else if s[..|pat|] == pat then DeleteAll(s[|pat|..], pat)
    else [s[0]] + DeleteAll(s[1..], pat)
  }

  /** Deleting a pattern that does not occur changes nothing. */
  lemma {:induction false} DeleteAllAbsent(s: string, pat: string)
    requires |pat| > 0 && !Contains(s, pat)
    ensures DeleteAll(s, pat) == s
    decreases |s|
  {
    if |s| >= |pat| {
      assert !OccursAt(s, pat, 0);
      assert !Contains(s[1..], pat) by {
        forall i | 0 <= i <= |s[1..]| - |pat|
          ensures !OccursAt(s[1..], pat, i)
        {
          assert !OccursAt(s, pat, i + 1);
          assert s[1..][i..i + |pat|] == s[i + 1..i + 1 + |pat|];
        }
      }
      DeleteAllAbsent(s[1..], pat);
      assert s == [s[0]] + s[1..];
    }
  }

  /** The deletion is a single left-to-right pass: deleting `_TW` from `X__TWTW` removes the one
      occurrence it finds and leaves the `_TW` that the removal brings together. */
  lemma DeleteAllSinglePass()
    ensures DeleteAll("X__TWTW", "_TW") == "X_TW"
    ensures Contains(DeleteAll("X__TWTW", "_TW"), "_TW")
  {
    var s := "X__TWTW";
    assert s[..3][0] == 'X' != "_TW"[0];
    assert s[1..][..3][1] == '_' != "_TW"[1];
    assert s[1..][1..] == "_TWTW" && s[1..][1..][..3] == "_TW";
    assert s[1..][1..][3..] == "TW";
    assert DeleteAll("TW", "_TW") == "TW";
    assert OccursAt("X_TW", "_TW", 1);
  }

  /** Deleting `pat` from `a + pat` gives `a` back when `a` holds no occurrence of `pat` and no
      occurrence can straddle the seam (the first character of `pat` does not recur in it). */
  lemma {:induction false} DeleteAllTrailing(a: string, pat: string)
    requires |pat| > 0 && pat[0] !in pat[1..]
    requires !Contains(a, pat)
    ensures DeleteAll(a + pat, pat) == a
    decreases |a|
  {
    var s := a + pat;
    if a == [] {
      assert s == pat;
      assert s[|pat|..] == [];
    } else {
      assert s[..|pat|] != pat by {
        if |a| >= |pat| {
          assert s[..|pat|] == a[..|pat|];
          assert !OccursAt(a, pat, 0);
        } else {
          assert s[|a|] == pat[0];
          assert pat[|a|] == pat[1..][|a| - 1];
        }
      }
      assert !Contains(a[1..], pat) by {
        forall i | 0 <= i <= |a[1..]| - |pat|
          ensures !OccursAt(a[1..], pat, i)
        {
          assert !OccursAt(a, pat, i + 1);
          assert a[1..][i..i + |pat|] == a[i + 1..i + 1 + |pat|];
        }
      }
      DeleteAllTrailing(a[1..], pat);
      assert s[1..] == a[1..] + pat;
      assert DeleteAll(s, pat) == [a[0]] + a[1..];
    }
  }

  // ---------------------------------------------------------------- decimal rendering

  function DigitChar(d: nat): (c: char)
    requires d < 10
    ensures IsDigit(c)
  {
    "0123456789"[d]
  }

  function DigitValue(c: char): nat
    requires IsDigit(c)
  {
    (c - '0') as nat
  }

  /** `str(n)` for a non-negative integer: its decimal digits, without leading zeros. */
  function NatToString(n: nat): (s: string)
    ensures IsDigits(s)
    ensures n < 10 <==> |s| == 1
    decreases n
  {
    if n < 10 then [DigitChar(n)] else NatToString(n / 10) + [DigitChar(n % 10)]
  }

  /** The value of a string of decimal digits (`int(s)`, with `0` for the empty string). */
  function ParseNat(s: string): nat
    requires forall i | 0 <= i < |s| :: IsDigit(s[i])
  {
    if s == [] then 0 else ParseNat(s[..|s| - 1]) * 10 + DigitValue(s[|s| - 1])
  }

  /** Parsing the decimal rendering of `n` gives `n` back. */
  lemma {:induction false} ParseNatToString(n: nat)
    ensures ParseNat(NatToString(n)) == n
    decreases n
  {
    var s := NatToString(n);
    if n >= 10 {
      ParseNatToString(n / 10);
      assert s[..|s| - 1] == NatToString(n / 10);
    }
  }

  /** Distinct numbers have distinct decimal renderings. */
  lemma NatToStringInjective(a: nat, b: nat)
    requires a != b
    ensures NatToString(a) != NatToString(b)
  {
    ParseNatToString(a);
    ParseNatToString(b);
  }
}
