/** Page segmentation and identity fields (`extract_tables_from_pdf`, pdf_extractor.py:20-69,
    without the PDF library calls): a page's text is cut into one block per student header match,
    each block yields the eight identity columns from the header groups and four labelled
    searches, and the block's subject lines are parsed into the subject columns. The regular
    expressions are not modelled: a header match is given by its start offset and its groups,
    and the labelled searches by a function from block text to their optional groups. */
module Segmenter {
  import opened Wrappers
  import Seqs
  import opened Text
  import opened Records
  import Subjects

  /** One match of the student header pattern: where it starts and its four groups (PRN, seat
      number, name, and the optional mother's name). */
  datatype HeaderMatch = HeaderMatch(start: nat, prn: string, seatNo: string, name: string, motherName: Option<string>)

  /** The first group of each labelled search within a block, when the search matched:
      semester, SGPA, credits earned/total and total credit points. */
  datatype LabelMatches = LabelMatches(
    semester: Option<string>, sgpa: Option<string>, creditsEarned: Option<string>, totalCreditPoints: Option<string>)

  /** The matches of a pattern scanned left to right start at strictly increasing offsets inside
      the text. */
  predicate WellPlaced(text: string, headers: seq<HeaderMatch>)
  {
    && (forall i | 0 <= i < |headers| :: headers[i].start < |text|)
    && (forall i, j | 0 <= i < j < |headers| :: headers[i].start < headers[j].start)
  }

  // ---------------------------------------------------------------- segmentation

  /** Where block `i` ends: at the next header's start, or at the end of the page for the last. */
  function BlockEnd(text: string, headers: seq<HeaderMatch>, i: nat): (e: nat)
    requires WellPlaced(text, headers) && i < |headers|
    ensures headers[i].start < e <= |text|
    ensures i + 1 < |headers| ==> e == headers[i + 1].start
    ensures i + 1 == |headers| ==> e == |text|
  {
    if i + 1 < |headers| then headers[i + 1].start else |text|
  }

  /** The text of student `i`: from its header's start up to the next header or the page end. */
  function Block(text: string, headers: seq<HeaderMatch>, i: nat): (b: string)
    requires WellPlaced(text, headers) && i < |headers|
    ensures b == text[headers[i].start..BlockEnd(text, headers, i)]
    ensures |b| > 0
  {
    text[headers[i].start..BlockEnd(text, headers, i)]
  }

  /** The blocks of a page, in header order. */
  function Blocks(text: string, headers: seq<HeaderMatch>): (bs: seq<string>)
    requires WellPlaced(text, headers)
    ensures |bs| == |headers|
    ensures forall i | 0 <= i < |bs| :: bs[i] == Block(text, headers, i)
  {
    seq(|headers|, i requires 0 <= i < |headers| => Block(text, headers, i))
  }

  /** The blocks from `i` on, concatenated, are exactly the page text from header `i` to the end. */
  lemma {:induction false} BlocksFromTile(text: string, headers: seq<HeaderMatch>, i: nat)
    requires WellPlaced(text, headers) && i < |headers|
    ensures Seqs.Flatten(Blocks(text, headers)[i..]) == text[headers[i].start..]
    decreases |headers| - i
  {
    var bs := Blocks(text, headers);
    var e := BlockEnd(text, headers, i);
    assert bs[i..] == [bs[i]] + bs[i + 1..];
    Seqs.FlattenCons(bs[i], bs[i + 1..]);
    if i + 1 < |headers| {
      BlocksFromTile(text, headers, i + 1);
      assert text[headers[i].start..] == text[headers[i].start..e] + text[e..];
    } else {
      assert bs[i + 1..] == [];
      assert text[headers[i].start..] == text[headers[i].start..e];
    }
  }

  /** The blocks tile the page from the first header on: concatenated, they give back exactly
      that text, so they are contiguous and do not overlap; text before the first header belongs
      to no student. */
  lemma BlocksTile(text: string, headers: seq<HeaderMatch>)
    requires WellPlaced(text, headers) && |headers| > 0
    ensures Seqs.Flatten(Blocks(text, headers)) == text[headers[0].start..]
  {
    BlocksFromTile(text, headers, 0);
    assert Blocks(text, headers)[0..] == Blocks(text, headers);
  }

  /** Each block holds exactly one header start, its own: later headers start at or after the
      block's end. */
  lemma BlockHoldsOneHeader(text: string, headers: seq<HeaderMatch>, i: nat, j: nat)
    requires WellPlaced(text, headers) && i < |headers| && j < |headers| && i != j
    ensures headers[j].start < headers[i].start || BlockEnd(text, headers, i) <= headers[j].start
  {
    if i < j && i + 1 < j {
      assert headers[i + 1].start < headers[j].start;
    }
  }

  // ---------------------------------------------------------------- identity fields

  /** The eight identity values of one student, in column order. */
  datatype Identity = Identity(
    prn: string, seatNo: string, name: string, motherName: string,
    semester: string, sgpa: string, creditsEarned: string, totalCreditPoints: string)

  /** The identity values of one student: PRN and seat number as matched, the name and the
      mother's name stripped (an absent mother's name is empty), and the labelled fields or their
      defaults — empty, except SGPA whose default is `N/A`. The SGPA group matches runs of digits,
      dots and hyphens, so the placeholder `-----` is kept as it is. */
  function Identify(h: HeaderMatch, labels: LabelMatches): (id: Identity)
    ensures id.prn == h.prn && id.seatNo == h.seatNo && id.name == Strip(h.name)
    ensures h.motherName.None? ==> id.motherName == ""
    ensures h.motherName.Some? ==> id.motherName == Strip(h.motherName.value)
    ensures labels.semester.None? ==> id.semester == ""
    ensures labels.sgpa.None? ==> id.sgpa == NotAvailable
    ensures labels.creditsEarned.None? ==> id.creditsEarned == ""
    ensures labels.totalCreditPoints.None? ==> id.totalCreditPoints == ""
    ensures labels.semester.Some? ==> id.semester == labels.semester.value
    ensures labels.sgpa.Some? ==> id.sgpa == labels.sgpa.value
    ensures labels.creditsEarned.Some? ==> id.creditsEarned == labels.creditsEarned.value
    ensures labels.totalCreditPoints.Some? ==> id.totalCreditPoints == labels.totalCreditPoints.value
  {
    Identity(
      prn := h.prn,
      seatNo := h.seatNo,
      name := Strip(h.name),
      motherName := if h.motherName.Some? then Strip(h.motherName.value) else "",
      semester := labels.semester.GetOr(""),
      sgpa := labels.sgpa.GetOr(NotAvailable),
      creditsEarned := labels.creditsEarned.GetOr(""),
      totalCreditPoints := labels.totalCreditPoints.GetOr(""))
  }

  /** The identity value stored under identity column `c`. */
  function IdentityCell(id: Identity, c: string): string
  {
    if c == "PRN" then id.prn
    else if c == "Seat No" then id.seatNo
    else if c == "Name" then id.name
    else if c == "Mother Name" then id.motherName
    else if c == "Semester" then id.semester
    else if c == "SGPA" then id.sgpa
    else if c == "Credits Earned/Total" then id.creditsEarned
    else id.totalCreditPoints
  }

  /** The identity values as the first eight entries of a student record. */
  function IdentityRecord(id: Identity): (r: Record)
    ensures r.Keys == set c | c in BaseColumns
    ensures forall c | c in BaseColumns :: r[c] == Str(IdentityCell(id, c))
  {
    map c | c in BaseColumns :: Str(IdentityCell(id, c))
  }

  /** The subject columns as record cells. */
  function SubjectCells(subjects: map<string, string>): (r: Record)
    ensures r.Keys == subjects.Keys
    ensures forall k | k in r :: r[k] == Str(subjects[k])
  {
    map k | k in subjects :: Str(subjects[k])
  }

  /** A record holding all eight identity columns. */
  predicate HasIdentity(r: Record)
  {
    forall c | c in BaseColumns :: c in r
  }

  /** One student's record: the identity columns followed by the subject columns, the latter
      winning any clash as in a dict display with `**`. */
  function StudentRecord(id: Identity, subjects: map<string, string>): (r: Record)
    ensures r.Keys == (set c | c in BaseColumns) + subjects.Keys
    ensures forall k | k in subjects :: r[k] == Str(subjects[k])
  {
    IdentityRecord(id) + SubjectCells(subjects)
  }

  /** When every subject key holds an underscore (as every key the subject parser produces does)
      no subject column can shadow an identity column, since none of those holds one: the
      identity values survive the merge. */
  lemma IdentitySurvives(id: Identity, subjects: map<string, string>)
    requires forall k | k in subjects :: '_' in k
    ensures HasIdentity(StudentRecord(id, subjects))
    ensures forall c | c in BaseColumns :: c in StudentRecord(id, subjects) && StudentRecord(id, subjects)[c] == IdentityRecord(id)[c]
    ensures "PRN" in StudentRecord(id, subjects) && StudentRecord(id, subjects)["PRN"] == Str(id.prn)
    ensures "SGPA" in StudentRecord(id, subjects) && StudentRecord(id, subjects)["SGPA"] == Str(id.sgpa)
  {
    var r := StudentRecord(id, subjects);
    BaseColumnsHaveNoUnderscore();
    forall c | c in BaseColumns ensures c !in subjects {
      assert c in subjects ==> '_' in c;
    }
    IdentityColumnsNamed();
    assert IdentityCell(id, "PRN") == id.prn;
    assert IdentityCell(id, "SGPA") == id.sgpa;
  }

  // ---------------------------------------------------------------- pages

  /** The record of student `i` of a page, built from its own block: the header groups, the
      labelled searches within the block and the subject lines of the block. */
  function StudentAt(text: string, headers: seq<HeaderMatch>, search: string -> LabelMatches, i: nat): Record
    requires WellPlaced(text, headers) && i < |headers|
  {
    var b := Block(text, headers, i);
    StudentRecord(Identify(headers[i], search(b)), Subjects.ParseSubjects(b))
  }

  /** Every student record carries the identity columns, with the PRN of its own header and the
      SGPA found in its own block, or `N/A`; the placeholder `-----` is kept as it is. */
  lemma StudentAtIdentified(text: string, headers: seq<HeaderMatch>, search: string -> LabelMatches, i: nat)
    requires WellPlaced(text, headers) && i < |headers|
    ensures var r := StudentAt(text, headers, search, i);
            var sgpa := search(Block(text, headers, i)).sgpa;
            && HasIdentity(r)
            && "PRN" in r && r["PRN"] == Str(headers[i].prn)
            && "SGPA" in r && r["SGPA"] == Str(if sgpa.Some? then sgpa.value else NotAvailable)
  {
    var b := Block(text, headers, i);
    IdentitySurvives(Identify(headers[i], search(b)), Subjects.ParseSubjects(b));
  }

  /** Beyond the identity columns a student record holds exactly the subject columns parsed from
      its own block, each as a string cell. */
  lemma StudentAtSubjects(text: string, headers: seq<HeaderMatch>, search: string -> LabelMatches, i: nat)
    requires WellPlaced(text, headers) && i < |headers|
    ensures var subjects := Subjects.ParseSubjects(Block(text, headers, i));
            var r := StudentAt(text, headers, search, i);
            && r.Keys == (set c | c in BaseColumns) + subjects.Keys
            && forall k | k in subjects :: r[k] == Str(subjects[k])
  {
  }

  /** Every subject line with data in a student's own block reaches the student's record:
      attribute `j` of line `p` is the cell under the `j`-th name the subject parser gave it. */
  lemma StudentLineStored(text: string, headers: seq<HeaderMatch>, search: string -> LabelMatches, i: nat, p: nat)
    requires WellPlaced(text, headers) && i < |headers|
    ensures var b := Block(text, headers, i);
            var lines := Subjects.SubjectLines(b);
            p < |lines| && Subjects.HasData(lines[p]) ==>
            var parts := SplitWs(Subjects.SubjectLines(b)[p]);
            var names := Subjects.StoredNames(Subjects.StateBefore(b, p).addedKeys, Subjects.SubjectKeys(Subjects.ColumnPrefix(parts[0])));
            var values := Subjects.AttributeValues(Subjects.Decompose(parts));
            var r := StudentAt(text, headers, search, i);
            forall j | 0 <= j < 9 :: names[j] in r && r[names[j]] == Str(values[j])
  {
    var b := Block(text, headers, i);
    Subjects.ParsedLineStored(b, p);
  }

  /** The records of one page: one per header match, in order; no header, no record. */
  function ExtractPage(text: string, headers: seq<HeaderMatch>, search: string -> LabelMatches): (rs: seq<Record>)
    requires WellPlaced(text, headers)
    ensures |rs| == |headers|
  {
    seq(|headers|, i requires 0 <= i < |headers| => StudentAt(text, headers, search, i))
  }

  /** One page of the document: its text and the header matches found in it. */
  datatype Page = Page(text: string, headers: seq<HeaderMatch>)

  predicate WellPlacedPages(pages: seq<Page>)
  {
    forall i | 0 <= i < |pages| :: WellPlaced(pages[i].text, pages[i].headers)
  }

  /** All records of the document, page after page. */
  function ExtractPages(pages: seq<Page>, search: string -> LabelMatches): (rs: seq<Record>)
    requires WellPlacedPages(pages)
    ensures |rs| == |HeaderPrns(pages)|
  {
    if pages == [] then []
    else
      assert WellPlaced(pages[0].text, pages[0].headers);
      assert WellPlacedPages(pages[1..]) by {
        forall i | 0 <= i < |pages[1..]| ensures WellPlaced(pages[1..][i].text, pages[1..][i].headers) {
          assert pages[1..][i] == pages[i + 1];
        }
      }
      ExtractPage(pages[0].text, pages[0].headers, search) + ExtractPages(pages[1..], search)
  }

  /** The PRNs of all header matches, page after page. */
  function HeaderPrns(pages: seq<Page>): (prns: seq<string>)
  {
    if pages == [] then [] else PagePrns(pages[0].headers) + HeaderPrns(pages[1..])
  }

  /** The PRNs of one page's header matches. */
  function PagePrns(headers: seq<HeaderMatch>): (prns: seq<string>)
    ensures |prns| == |headers|
    ensures forall i | 0 <= i < |headers| :: prns[i] == headers[i].prn
  {
    Seqs.Map(headers, (h: HeaderMatch) => h.prn)
  }

  /** Record `r` carries the identity columns and PRN `prn`. */
  predicate Identified(r: Record, prn: string)
  {
    HasIdentity(r) && "PRN" in r && r["PRN"] == Str(prn)
  }

  /** Record `i` carries the identity columns and PRN `prns[i]`, for every `i`. */
  predicate AllIdentified(rs: seq<Record>, prns: seq<string>)
  {
    |rs| == |prns| && forall i | 0 <= i < |rs| :: Identified(rs[i], prns[i])
  }

  /** The records of one page carry the PRNs of its headers, in order. */
  lemma PageIdentified(text: string, headers: seq<HeaderMatch>, search: string -> LabelMatches)
    requires WellPlaced(text, headers)
    ensures AllIdentified(ExtractPage(text, headers, search), PagePrns(headers))
  {
    var rs := ExtractPage(text, headers, search);
    forall i | 0 <= i < |rs| ensures Identified(rs[i], PagePrns(headers)[i]) {
      StudentAtIdentified(text, headers, search, i);
    }
  }

  /** Identified records followed by identified records. */
  lemma ConcatIdentified(first: seq<Record>, rest: seq<Record>, firstPrns: seq<string>, restPrns: seq<string>)
    requires AllIdentified(first, firstPrns) && AllIdentified(rest, restPrns)
    ensures AllIdentified(first + rest, firstPrns + restPrns)
  {
    forall i | 0 <= i < |first + rest| ensures Identified((first + rest)[i], (firstPrns + restPrns)[i]) {
      if i >= |first| {
        assert (first + rest)[i] == rest[i - |first|];
      }
    }
  }

  /** The extracted records are the header matches of the document in order: record `i` carries
      the identity columns and the PRN of the `i`-th header over all pages. */
  lemma {:induction false} EveryRecordIdentified(pages: seq<Page>, search: string -> LabelMatches)
    requires WellPlacedPages(pages)
    ensures AllIdentified(ExtractPages(pages, search), HeaderPrns(pages))
  {
    if pages != [] {
      var p := pages[0];
      assert WellPlaced(p.text, p.headers);
      assert WellPlacedPages(pages[1..]) by {
        forall i | 0 <= i < |pages[1..]| ensures WellPlaced(pages[1..][i].text, pages[1..][i].headers) {
          assert pages[1..][i] == pages[i + 1];
        }
      }
      var first := ExtractPage(p.text, p.headers, search);
      var rest := ExtractPages(pages[1..], search);
      PageIdentified(p.text, p.headers, search);
      EveryRecordIdentified(pages[1..], search);
      ConcatIdentified(first, rest, PagePrns(p.headers), HeaderPrns(pages[1..]));
      assert ExtractPages(pages, search) == first + rest;
    }
  }
}
