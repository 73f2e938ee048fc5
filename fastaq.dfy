/**
 * The FASTQ record reader. A file handle is a sequence of raw lines, each
 * still carrying its line terminator, and a read position; `ReadLine`
 * returns the empty string at end of file, as Python's `readline` does.
 * The reader consumes four lines per record and yields
 * `(header.strip(), seq.strip(), qual.strip())`; what it logs is returned
 * beside the records.
 */
module Fastaq {
  import opened PyStr

  /** An open text file read line by line. */
  class LineReader {
    /** The file's lines, each with its terminator; only the last one may
        lack "\n", and none is empty. */
    const lines: seq<string>
    var pos: nat

    ghost predicate Valid()
      reads this
    {
      pos <= |lines| && forall i :: 0 <= i < |lines| ==> lines[i] != ""
    }

    constructor (contents: seq<string>)
      requires forall i :: 0 <= i < |contents| ==> contents[i] != ""
      ensures Valid() && lines == contents && pos == 0
    {
      lines := contents;
      pos := 0;
    }

    /** `readline()`: the next line, or "" once the file is exhausted. */
    method ReadLine() returns (line: string)
      requires Valid()
      modifies this
      ensures Valid()
      ensures old(pos) < |lines| ==> line == lines[old(pos)] && pos == old(pos) + 1
      ensures old(pos) == |lines| ==> line == "" && pos == old(pos)
    {
      if pos < |lines| {
        line := lines[pos];
        pos := pos + 1;
      } else {
        line := "";
      }
    }
  }

  datatype FastqRecord = FastqRecord(header: string, sequence: string, quality: string)

  /** What the reader logs as an error. */
  datatype LogEntry =
    | MissingSequence(header: string)   // a header with end of file after it
    | BadSeparator(line: string)        // a third line other than "+"
    | MissingQuality(header: string)    // a record cut short before its quality line

  /** The `i`-th line, or "" (end of file) past the end. */
  function LineAt(ls: seq<string>, i: nat): string {
    if i < |ls| then ls[i] else ""
  }

  /** The header, sequence and quality lines of the group that starts at
      `p`, as read (the third line is the separator and is not kept). */
  function GroupAt(ls: seq<string>, p: nat): FastqRecord {
    FastqRecord(LineAt(ls, p), LineAt(ls, p + 1), LineAt(ls, p + 3))
  }

  /** The groups the reader turns into records from `p` on: one per four
      lines; a final group of two or three lines still counts, and a final
      lone header does not. */
  function Groups(ls: seq<string>, p: nat): seq<FastqRecord>
    decreases |ls| - p
  {
    if p + 1 >= |ls| then []
    else [GroupAt(ls, p)] + Groups(ls, p + 4)
  }

  /** A record as yielded: each of its three lines stripped. */
  function Clean(g: FastqRecord): FastqRecord {
    FastqRecord(StripSpace(g.header), StripSpace(g.sequence), StripSpace(g.quality))
  }

  function CleanAll(gs: seq<FastqRecord>): seq<FastqRecord> {
    seq(|gs|, i requires 0 <= i < |gs| => Clean(gs[i]))
  }

  /** The records yielded from the lines of `ls` that start at `p`. */
  function FastqRecords(ls: seq<string>, p: nat): seq<FastqRecord> {
    CleanAll(Groups(ls, p))
  }

  /** The separator test on the third line of the group at `p`, which
      compares the line as read, terminator included, with "+". */
  function SeparatorCheck(ls: seq<string>, p: nat): seq<LogEntry> {
    if LineAt(ls, p + 2) != "+" then [BadSeparator(LineAt(ls, p + 2))] else []
  }

  /** The errors logged while reading the lines of `ls` from `p`, in order. */
  function FastqLog(ls: seq<string>, p: nat): seq<LogEntry>
    decreases |ls| - p
  {
    if p >= |ls| then []
    else if p + 1 == |ls| then [MissingSequence(ls[p])]
    else SeparatorCheck(ls, p) + FastqLog(ls, p + 4)
  }

  /** Four `readline()` calls: the lines at the handle's position, "" for
      those past the end of file; the handle moves past what was read. */
  method ReadFour(h: LineReader) returns (header: string, sequence: string, skip: string, quality: string)
    requires h.Valid()
    modifies h
    ensures h.Valid()
    ensures var p := old(h.pos);
      header == LineAt(h.lines, p) && sequence == LineAt(h.lines, p + 1) &&
      skip == LineAt(h.lines, p + 2) && quality == LineAt(h.lines, p + 3) &&
      h.pos == if p + 4 <= |h.lines| then p + 4 else |h.lines|
  {
    header := h.ReadLine();
    sequence := h.ReadLine();
    skip := h.ReadLine();
    quality := h.ReadLine();
  }

  /** One step of the reader from position `p`: with a header and a
      sequence line ahead it takes the group of the next four lines and
      continues where those four lines end (at end of file if fewer remain). */
  lemma FastqStep(ls: seq<string>, p: nat, q: nat)
    requires p + 1 < |ls| && q == if p + 4 <= |ls| then p + 4 else |ls|
    ensures Groups(ls, p) == [GroupAt(ls, p)] + Groups(ls, q)
    ensures FastqLog(ls, p) == SeparatorCheck(ls, p) + FastqLog(ls, q)
  {
  }

  /** A header with nothing after it: no group, and one error. */
  lemma FastqHeaderOnly(ls: seq<string>, p: nat)
    requires p + 1 == |ls|
    ensures Groups(ls, p) == [] && Groups(ls, |ls|) == []
    ensures FastqLog(ls, p) == [MissingSequence(ls[p])] && FastqLog(ls, |ls|) == []
  {
  }

  lemma AppendAssoc<T>(a: seq<T>, b: seq<T>, c: seq<T>)
    ensures a + (b + c) == (a + b) + c
  {
  }

  /** `fastq_iterate(h)`, run to exhaustion: the records it yields and the
      errors it logs. It always leaves the handle at end of file. The
      reader takes its four lines with separate `readline()` calls and tests
      for end of file after the header and after the sequence line; the test
      placed after the quality line looks at the sequence line again, and so
      never fires, since that line is non-empty there. */
  method FastqIterate(h: LineReader) returns (records: seq<FastqRecord>, log: seq<LogEntry>)
    requires h.Valid()
    modifies h
    ensures h.Valid() && h.pos == |h.lines|
    ensures records == FastqRecords(h.lines, old(h.pos))
    ensures log == FastqLog(h.lines, old(h.pos))
  {
    ghost var ls, start := h.lines, h.pos;
    ghost var groups: seq<FastqRecord> := [];
    records, log := [], [];
    while true
      invariant h.Valid() && h.lines == ls
      invariant Groups(ls, start) == groups + Groups(ls, h.pos)
      invariant records == CleanAll(groups)
      invariant FastqLog(ls, start) == log + FastqLog(ls, h.pos)
      decreases |ls| - h.pos
    {
      ghost var p := h.pos;
      var header, sequence, skip, quality := ReadFour(h);
      if header == "" {
        // The file has ended on a multiple of four lines.
        break;
      }
      if sequence == "" {
        FastqHeaderOnly(ls, p);
        log := log + [MissingSequence(header)];
        break;
      }
      FastqStep(ls, p, h.pos);
      ghost var log0, bad := log, SeparatorCheck(ls, p);
      assert FastqLog(ls, p) == bad + FastqLog(ls, h.pos);
      AppendAssoc(log, bad, FastqLog(ls, h.pos));
      if skip != "+" {
        log := log + [BadSeparator(skip)];
      }
      assert log == log0 + bad;
      ghost var g := GroupAt(ls, p);
      assert g == FastqRecord(header, sequence, quality);
      AppendAssoc(groups, [g], Groups(ls, h.pos));
      CleanAllSnoc(groups, g);
      groups := groups + [g];
      records := records + [FastqRecord(StripSpace(header), StripSpace(sequence), StripSpace(quality))];
    }
    assert Groups(ls, h.pos) == [];
  }

  lemma CleanAllSnoc(gs: seq<FastqRecord>, g: FastqRecord)
    ensures CleanAll(gs + [g]) == CleanAll(gs) + [Clean(g)]
  {
  }

  /** The number of records for the `n` lines from `p`: n/4 when 4 divides n,
      the floor of n/4 when n mod 4 is 1 (the lone header yields nothing), and
      the ceiling of n/4 otherwise (a short final record is still yielded). */
  lemma RecordCount(ls: seq<string>, p: nat)
    requires p <= |ls|
    ensures var n := |ls| - p;
      |FastqRecords(ls, p)| == if n % 4 == 1 then n / 4 else (n + 3) / 4
  {
    GroupCount(ls, p);
  }

  lemma {:induction false} GroupCount(ls: seq<string>, p: nat)
    requires p <= |ls|
    ensures var n := |ls| - p;
      |Groups(ls, p)| == if n % 4 == 1 then n / 4 else (n + 3) / 4
    decreases |ls| - p
  {
    if p + 4 <= |ls| {
      GroupCount(ls, p + 4);
    }
  }

  /** Records come out in input order: record `k` is the stripped header,
      sequence and quality of lines p+4k, p+4k+1 and p+4k+3. */
  lemma RecordAt(ls: seq<string>, p: nat, k: nat)
    requires k < |FastqRecords(ls, p)|
    ensures p + 4 * k + 1 < |ls|
    ensures FastqRecords(ls, p)[k] ==
      FastqRecord(StripSpace(ls[p + 4 * k]), StripSpace(ls[p + 4 * k + 1]), StripSpace(LineAt(ls, p + 4 * k + 3)))
  {
    GroupIndex(ls, p, k);
  }

  lemma {:induction false} GroupIndex(ls: seq<string>, p: nat, k: nat)
    requires k < |Groups(ls, p)|
    ensures p + 4 * k + 1 < |ls| && Groups(ls, p)[k] == GroupAt(ls, p + 4 * k)
    decreases k
  {
    assert p + 1 < |ls|;
    var g, rest := GroupAt(ls, p), Groups(ls, p + 4);
    assert Groups(ls, p) == [g] + rest;
    if k > 0 {
      var q := p + 4;
      assert k - 1 < |rest|;
      GroupIndex(ls, q, k - 1);
      assert q + 4 * (k - 1) == p + 4 * k;
    }
  }

  /** A header followed directly by end of file yields no record and logs a
      missing sequence. */
  lemma LoneHeader(h: string)
    ensures FastqRecords([h], 0) == [] && FastqLog([h], 0) == [MissingSequence(h)]
  {
  }

  /** The sequence's last element is `e`. */
  predicate EndsWithItem<T(==)>(s: seq<T>, e: T) {
    |s| >= 1 && s[|s| - 1] == e
  }

  lemma EndsWithItemAppend<T>(a: seq<T>, b: seq<T>, e: T)
    requires EndsWithItem(b, e)
    ensures EndsWithItem(a + b, e)
  {
    assert (a + b)[|a + b| - 1] == b[|b| - 1];
  }

  /** When the lines from `p` end in a group of two or three, the last group
      is that one. */
  lemma LastGroup(ls: seq<string>, p: nat)
    requires p <= |ls| && ((|ls| - p) % 4 == 2 || (|ls| - p) % 4 == 3)
    ensures var gs := Groups(ls, p);
      |gs| >= 1 && gs[|gs| - 1] == GroupAt(ls, |ls| - (|ls| - p) % 4)
  {
    var k := (|ls| - p) / 4;
    LastGroupAt(ls, p, k, |ls| - p - 4 * k);
  }

  lemma {:induction false} LastGroupAt(ls: seq<string>, p: nat, k: nat, r: nat)
    requires |ls| == p + 4 * k + r && (r == 2 || r == 3)
    ensures EndsWithItem(Groups(ls, p), GroupAt(ls, p + 4 * k))
    decreases k
  {
    var g, rest := GroupAt(ls, p), Groups(ls, p + 4);
    assert Groups(ls, p) == [g] + rest;
    if k == 0 {
      assert rest == [];
    } else {
      var q := p + 4;
      LastGroupAt(ls, q, k - 1, r);
      assert q + 4 * (k - 1) == p + 4 * k;
      EndsWithItemAppend([g], rest, GroupAt(ls, p + 4 * k));
    }
  }

  /** A final record cut short after its sequence or separator line is still
      yielded, with an empty quality. */
  lemma TruncatedRecordYielded(ls: seq<string>, p: nat)
    requires p <= |ls| && ((|ls| - p) % 4 == 2 || (|ls| - p) % 4 == 3)
    ensures var recs := FastqRecords(ls, p); var last := |ls| - (|ls| - p) % 4;
      |recs| >= 1 && recs[|recs| - 1] == FastqRecord(StripSpace(ls[last]), StripSpace(ls[last + 1]), "")
  {
    LastGroup(ls, p);
    StripEmpty();
  }

  /** When every line carries its "\n" terminator, the separator check fails
      for every record, even for a correct "+\n" line: one error per record,
      plus one for a lone final header. */
  lemma EverySeparatorFlagged(ls: seq<string>, p: nat)
    requires p <= |ls|
    requires forall i :: 0 <= i < |ls| ==> EndsWith(ls[i], "\n")
    ensures |FastqLog(ls, p)| == |FastqRecords(ls, p)| + (if (|ls| - p) % 4 == 1 then 1 else 0)
  {
    RecordCount(ls, p);
    TerminatedLogCount(ls, p);
  }

  /** The number of errors logged for terminated lines from `p`: one per group
      of four lines or final shorter group. */
  lemma {:induction false} TerminatedLogCount(ls: seq<string>, p: nat)
    requires p <= |ls|
    requires forall i :: 0 <= i < |ls| ==> EndsWith(ls[i], "\n")
    ensures |FastqLog(ls, p)| == (|ls| - p + 3) / 4
    decreases |ls| - p
  {
    if p + 1 < |ls| {
      assert |SeparatorCheck(ls, p)| == 1 by {
        if p + 2 < |ls| {
          NotBarePlus(ls[p + 2]);
        }
      }
      var q := if p + 4 <= |ls| then p + 4 else |ls|;
      TerminatedLogCount(ls, q);
      assert FastqLog(ls, p) == SeparatorCheck(ls, p) + FastqLog(ls, q);
    }
  }

  /** A line read with its terminator is never the bare "+" that the
      separator check compares against. */
  lemma NotBarePlus(line: string)
    requires EndsWith(line, "\n")
    ensures line != "+"
  {
    assert line[|line| - 1] == line[|line| - 1..][0] == '\n';
  }

  /** A whole stream yields exactly three records exactly when it has 10 to 13
      lines (13 being three records and a lone header). */
  lemma ThreeRecords(ls: seq<string>)
    ensures |FastqRecords(ls, 0)| == 3 <==> 10 <= |ls| <= 13
  {
    RecordCount(ls, 0);
    var n := |ls|;
    if n <= 9 {
      assert |FastqRecords(ls, 0)| <= 2;
    } else if n >= 14 {
      assert |FastqRecords(ls, 0)| >= 4;
    }
  }

  // The reader as its comments and messages intend it: the separator test
  // ignores the line terminator, and the quality-line test looks at the
  // quality line, so a record cut short is reported and not yielded.

  /** The groups the intended reader yields from `p` on: complete groups
      of four lines only. */
  function CheckedGroups(ls: seq<string>, p: nat): seq<FastqRecord>
    decreases |ls| - p
  {
    if p + 3 >= |ls| then []
    else [GroupAt(ls, p)] + CheckedGroups(ls, p + 4)
  }

  function CheckedRecords(ls: seq<string>, p: nat): seq<FastqRecord> {
    CleanAll(CheckedGroups(ls, p))
  }

  /** The intended separator test on the third line of a group. */
  function CheckedSeparator(ls: seq<string>, p: nat): seq<LogEntry> {
    if StripSpace(LineAt(ls, p + 2)) != "+" then [BadSeparator(LineAt(ls, p + 2))] else []
  }

  /** The errors the intended reader logs from `p` on. */
  function CheckedLog(ls: seq<string>, p: nat): seq<LogEntry>
    decreases |ls| - p
  {
    if p >= |ls| then []
    else if p + 1 == |ls| then [MissingSequence(ls[p])]
    else
      CheckedSeparator(ls, p) +
      (if p + 3 >= |ls| then [MissingQuality(ls[p])] else CheckedLog(ls, p + 4))
  }

  /** A complete group: it is yielded, and reading goes on four lines later. */
  lemma CheckedStep(ls: seq<string>, p: nat)
    requires p + 3 < |ls|
    ensures CheckedGroups(ls, p) == [GroupAt(ls, p)] + CheckedGroups(ls, p + 4)
    ensures CheckedLog(ls, p) == CheckedSeparator(ls, p) + CheckedLog(ls, p + 4)
  {
  }

  /** A group of two or three lines: nothing is yielded, and the missing
      quality line is reported after the separator test. */
  lemma CheckedShort(ls: seq<string>, p: nat)
    requires p + 1 < |ls| <= p + 3
    ensures CheckedGroups(ls, p) == [] && CheckedGroups(ls, |ls|) == []
    ensures CheckedLog(ls, p) == CheckedSeparator(ls, p) + [MissingQuality(ls[p])]
  {
  }

  /** `fastq_iterate` with the separator compared after stripping and the
      end-of-file test after the quality line applied to that line. */
  method FastqIterateChecked(h: LineReader) returns (records: seq<FastqRecord>, log: seq<LogEntry>)
    requires h.Valid()
    modifies h
    ensures h.Valid() && h.pos == |h.lines|
    ensures records == CheckedRecords(h.lines, old(h.pos))
    ensures log == CheckedLog(h.lines, old(h.pos))
  {
    ghost var ls, start := h.lines, h.pos;
    ghost var groups: seq<FastqRecord> := [];
    records, log := [], [];
    while true
      invariant h.Valid() && h.lines == ls
      invariant CheckedGroups(ls, start) == groups + CheckedGroups(ls, h.pos)
      invariant records == CleanAll(groups)
      invariant CheckedLog(ls, start) == log + CheckedLog(ls, h.pos)
      decreases |ls| - h.pos
    {
      ghost var p := h.pos;
      var header, sequence, skip, quality := ReadFour(h);
      if header == "" {
        break;
      }
      if sequence == "" {
        FastqHeaderOnly(ls, p);
        log := log + [MissingSequence(header)];
        break;
      }
      ghost var log0, bad := log, CheckedSeparator(ls, p);
      if StripSpace(skip) != "+" {
        log := log + [BadSeparator(skip)];
      }
      assert log == log0 + bad;
      if quality == "" {
        CheckedShort(ls, p);
        AppendAssoc(log0, bad, [MissingQuality(header)]);
        log := log + [MissingQuality(header)];
        break;
      }
      assert p + 3 < |ls| && h.pos == p + 4;
      CheckedStep(ls, p);
      AppendAssoc(log0, bad, CheckedLog(ls, h.pos));
      ghost var g := GroupAt(ls, p);
      assert g == FastqRecord(header, sequence, quality);
      AppendAssoc(groups, [g], CheckedGroups(ls, h.pos));
      CleanAllSnoc(groups, g);
      groups := groups + [g];
      records := records + [FastqRecord(StripSpace(header), StripSpace(sequence), StripSpace(quality))];
    }
    assert CheckedGroups(ls, h.pos) == [];
  }

  /** The intended reader yields one record per complete group of four
      lines, in order, each with a quality line that was actually read. */
  lemma CheckedRecordsComplete(ls: seq<string>, p: nat)
    requires p <= |ls|
    ensures |CheckedRecords(ls, p)| == (|ls| - p) / 4
    ensures forall k :: 0 <= k < |CheckedRecords(ls, p)| ==>
      p + 4 * k + 3 < |ls| &&
      CheckedRecords(ls, p)[k] == Clean(FastqRecord(ls[p + 4 * k], ls[p + 4 * k + 1], ls[p + 4 * k + 3]))
  {
    CheckedGroupCount(ls, p);
    forall k | 0 <= k < |CheckedRecords(ls, p)|
      ensures p + 4 * k + 3 < |ls| &&
        CheckedRecords(ls, p)[k] == Clean(FastqRecord(ls[p + 4 * k], ls[p + 4 * k + 1], ls[p + 4 * k + 3]))
    {
      CheckedGroupIndex(ls, p, k);
    }
  }

  lemma {:induction false} CheckedGroupCount(ls: seq<string>, p: nat)
    requires p <= |ls|
    ensures |CheckedGroups(ls, p)| == (|ls| - p) / 4
    decreases |ls| - p
  {
    if p + 3 < |ls| {
      CheckedGroupCount(ls, p + 4);
    }
  }

  lemma {:induction false} CheckedGroupIndex(ls: seq<string>, p: nat, k: nat)
    requires k < |CheckedGroups(ls, p)|
    ensures p + 4 * k + 3 < |ls| && CheckedGroups(ls, p)[k] == GroupAt(ls, p + 4 * k)
    decreases k
  {
    assert p + 3 < |ls|;
    var g, rest := GroupAt(ls, p), CheckedGroups(ls, p + 4);
    assert CheckedGroups(ls, p) == [g] + rest;
    if k > 0 {
      var q := p + 4;
      assert k - 1 < |rest|;
      CheckedGroupIndex(ls, q, k - 1);
      assert q + 4 * (k - 1) == p + 4 * k;
    }
  }

  /** On input made of complete groups the two readers yield the same
      records; they differ only on a record cut short. */
  lemma {:induction false} CheckedAgreesWhenComplete(ls: seq<string>, p: nat)
    requires p <= |ls| && (|ls| - p) % 4 == 0
    ensures CheckedGroups(ls, p) == Groups(ls, p)
    ensures CheckedRecords(ls, p) == FastqRecords(ls, p)
    decreases |ls| - p
  {
    if p + 3 < |ls| {
      CheckedAgreesWhenComplete(ls, p + 4);
    }
  }

  /** The third line of the group at `i`, if there is one, is a separator
      once stripped. */
  predicate SeparatorOk(ls: seq<string>, i: nat) {
    i + 2 < |ls| ==> StripSpace(ls[i + 2]) == "+"
  }

  /** Lines from `p` on that form complete records with `+` separators. */
  predicate WellFormedFastq(ls: seq<string>, p: nat) {
    p <= |ls| && (|ls| - p) % 4 == 0 &&
    forall i :: p <= i < |ls| && (i - p) % 4 == 0 ==> SeparatorOk(ls, i)
  }

  /** The intended reader logs nothing on well-formed input, whether or not
      the separator line keeps its terminator. */
  lemma {:induction false} WellFormedSilent(ls: seq<string>, p: nat)
    requires WellFormedFastq(ls, p)
    ensures CheckedLog(ls, p) == []
    decreases |ls| - p
  {
    if p < |ls| {
      assert SeparatorOk(ls, p);
      assert WellFormedFastq(ls, p + 4) by {
        forall i | p + 4 <= i < |ls| && (i - (p + 4)) % 4 == 0
          ensures SeparatorOk(ls, i)
        {
          assert (i - p) % 4 == 0;
        }
      }
      WellFormedSilent(ls, p + 4);
    }
  }

  lemma {:induction false} TruncationReported(ls: seq<string>, p: nat)
    requires p <= |ls| && ((|ls| - p) % 4 == 2 || (|ls| - p) % 4 == 3)
    ensures var log := CheckedLog(ls, p);
      |log| >= 1 && log[|log| - 1] == MissingQuality(ls[|ls| - (|ls| - p) % 4])
  {
    var k := (|ls| - p) / 4;
    TruncationAt(ls, p, k, |ls| - p - 4 * k);
  }

  lemma {:induction false} TruncationAt(ls: seq<string>, p: nat, k: nat, r: nat)
    requires |ls| == p + 4 * k + r && (r == 2 || r == 3)
    ensures EndsWithItem(CheckedLog(ls, p), MissingQuality(ls[p + 4 * k]))
    decreases k
  {
    var sep := CheckedSeparator(ls, p);
    if k == 0 {
      CheckedShort(ls, p);
      EndsWithItemAppend(sep, [MissingQuality(ls[p])], MissingQuality(ls[p]));
    } else {
      TruncationAt(ls, p + 4, k - 1, r);
      assert p + 4 + 4 * (k - 1) == p + 4 * k;
      CheckedStep(ls, p);
      EndsWithItemAppend(sep, CheckedLog(ls, p + 4), MissingQuality(ls[p + 4 * k]));
    }
  }

  /** As written: a header and a sequence line with nothing after them are
      yielded as a record with an empty quality, and only the missing
      separator is logged; the intended reader yields nothing and reports
      the missing quality line. */
  lemma TruncatedRecordExample()
    ensures FastqRecords(["@r\n", "ACGT\n"], 0) == [FastqRecord("@r", "ACGT", "")]
    ensures FastqLog(["@r\n", "ACGT\n"], 0) == [BadSeparator("")]
    ensures CheckedRecords(["@r\n", "ACGT\n"], 0) == []
    ensures CheckedLog(["@r\n", "ACGT\n"], 0) == [BadSeparator(""), MissingQuality("@r\n")]
  {
    var ls := ["@r\n", "ACGT\n"];
    assert StripSpace(ls[0]) == "@r" by {
      StripDropsLast("@r", '\n', Whitespace);
    }
    assert StripSpace(ls[1]) == "ACGT" by {
      assert ls[1] == "ACGT" + ['\n'];
      StripDropsLast("ACGT", '\n', Whitespace);
    }
    StripEmpty();
    assert Groups(ls, 0) == [GroupAt(ls, 0)];
    assert CleanAll(Groups(ls, 0)) == [Clean(GroupAt(ls, 0))];
  }

  /** As written: a correct record whose separator line keeps its newline
      is logged as a bad separator; the intended reader logs nothing. */
  lemma SeparatorExample()
    ensures FastqLog(["@r\n", "ACGT\n", "+\n", "IIII\n"], 0) == [BadSeparator("+\n")]
    ensures CheckedLog(["@r\n", "ACGT\n", "+\n", "IIII\n"], 0) == []
  {
    var ls := ["@r\n", "ACGT\n", "+\n", "IIII\n"];
    assert ls[2] != "+" by {
      NotBarePlus(ls[2]);
    }
    assert StripSpace(ls[2]) == "+" by {
      StripDropsLast("+", '\n', Whitespace);
    }
  }
}
