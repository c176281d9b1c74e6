/**
 * The working-tree status report of `git status --porcelain -z` and the
 * per-file entries parsed from it (adverse.py, class GitStatus and
 * Git.status / Git.dirty).
 */
module Porcelain {

  /** The record separator of the `-z` report. */
  const NUL: char := '\0'

  /** One changed file: its path and its two-letter XY code (index, worktree). */
  datatype GitStatus = GitStatus(path: string, status: string)

  /** A rendered entry: the path and the two one-character columns of the code. */
  datatype RenderedCode = RenderedCode(path: string, x: string, y: string)

  /** The entry emitted when the tree is clean, so that the file array is never empty. */
  const Placeholder: GitStatus := GitStatus("", "  ")

  function Min(a: int, b: int): int { if a < b then a else b }

  /** Python's `s[:n]`: a prefix that is shorter when `s` is. */
  function Take(s: string, n: nat): string { s[..Min(n, |s|)] }

  /** Python's `s[n:]`: empty when `s` is shorter than `n`. */
  function Drop(s: string, n: nat): string { s[Min(n, |s|)..] }

  /** Python's `s[lo:hi]` for `lo <= hi`. */
  function Slice(s: string, lo: nat, hi: nat): string
    requires lo <= hi
  {
    Drop(Take(s, hi), lo)
  }

  /** Joins `parts` with `sep` between consecutive parts. */
  function Join(parts: seq<string>, sep: char): string
    requires |parts| >= 1
    decreases |parts|
  {
    if |parts| == 1 then parts[0] else parts[0] + [sep] + Join(parts[1..], sep)
  }

  /**
   * Python's `s.split(sep)` with an explicit separator: one more part than
   * there are separators, none of them containing `sep`, and joining the
   * parts back gives `s`.
   */
  function Split(s: string, sep: char): (parts: seq<string>)
    ensures |parts| >= 1
    ensures forall i :: 0 <= i < |parts| ==> sep !in parts[i]
    ensures Join(parts, sep) == s
    decreases |s|
  {
    if s == [] then [""]
    else
      var rest := Split(s[1..], sep);
      if s[0] == sep then [""] + rest
      else [[s[0]] + rest[0]] + rest[1..]
  }

  /**
   * One non-empty record `XY PATH`: the code is the first two characters,
   * the path everything from offset 3; a short record gives a short code
   * and an empty path, as Python's slicing does.
   */
  function ParseLine(line: string): (e: GitStatus)
    ensures |e.status| == Min(2, |line|) && e.status <= line
    ensures |line| >= 3 ==> e.status + [line[2]] + e.path == line
    ensures |line| <= 3 ==> e.path == ""
  {
    GitStatus(path := Drop(line, 3), status := Slice(line, 0, 2))
  }

  /** The entries of a split report: one per non-empty record, in order. */
  function ParseRecords(records: seq<string>): (entries: seq<GitStatus>)
    ensures |entries| <= |records|
    ensures entries == [] <==> AllEmpty(records)
  {
    if records == [] then []
    else
      var rest := ParseRecords(records[1..]);
      assert forall i :: 1 <= i < |records| ==> records[i] == records[1..][i - 1];
      if records[0] != "" then [ParseLine(records[0])] + rest else rest
  }

  lemma {:induction false} CountFrom(records: seq<string>, lo: nat)
    requires lo <= |records|
    ensures |ParseRecords(records[lo..])| == |set i | lo <= i < |records| && records[i] != ""|
    decreases |records| - lo
  {
    var here := set i | lo <= i < |records| && records[i] != "";
    if lo == |records| {
      assert here == {};
    } else {
      CountFrom(records, lo + 1);
      assert records[lo..][1..] == records[lo + 1..];
      var later := set i | lo + 1 <= i < |records| && records[i] != "";
      if records[lo] != "" {
        assert here == later + {lo};
      } else {
        assert here == later;
      }
    }
  }

  /** There is exactly one entry per non-empty record. */
  lemma ParseRecordsCount(records: seq<string>)
    ensures |ParseRecords(records)| == |set i | 0 <= i < |records| && records[i] != ""|
  {
    CountFrom(records, 0);
    assert records[0..] == records;
  }

  /**
   * The entries `Git.status` yields for a report: there are none exactly
   * when the report holds nothing but separators.
   */
  function ParseStatus(report: string): (entries: seq<GitStatus>)
    ensures entries == [] <==> AllSeparators(report, NUL)
  {
    var records := Split(report, NUL);
    OnlySeparators(records, NUL);
    ParseRecords(records)
  }

  /** Every record is empty. */
  predicate AllEmpty(records: seq<string>)
  {
    forall i :: 0 <= i < |records| ==> records[i] == ""
  }

  /** Every character is the separator. */
  predicate AllSeparators(s: string, sep: char)
  {
    forall k :: 0 <= k < |s| ==> s[k] == sep
  }

  /** The parts of a split are all empty exactly when their join is all separators. */
  lemma {:induction false} OnlySeparators(parts: seq<string>, sep: char)
    requires |parts| >= 1
    requires forall i :: 0 <= i < |parts| ==> sep !in parts[i]
    ensures AllEmpty(parts) <==> AllSeparators(Join(parts, sep), sep)
    decreases |parts|
  {
    var s := Join(parts, sep);
    if |parts| == 1 {
      assert s == parts[0];
      if parts[0] != "" {
        assert sep !in parts[0];
        assert s[0] == parts[0][0] && parts[0][0] in parts[0];
      }
    } else {
      var tail := parts[1..];
      assert forall i :: 0 <= i < |tail| ==> tail[i] == parts[i + 1];
      OnlySeparators(tail, sep);
      var t := Join(tail, sep);
      assert s == parts[0] + [sep] + t;
      if parts[0] != "" {
        assert sep !in parts[0];
        assert s[0] == parts[0][0] && parts[0][0] in parts[0];
      } else {
        assert s == [sep] + t;
        assert AllEmpty(parts) <==> AllEmpty(tail) by {
          assert forall i :: 1 <= i < |parts| ==> parts[i] == tail[i - 1];
        }
        assert AllSeparators(s, sep) <==> AllSeparators(t, sep) by {
          assert s[0] == sep;
          assert forall k :: 1 <= k < |s| ==> s[k] == t[k - 1];
          assert forall k :: 0 <= k < |t| ==> t[k] == s[k + 1];
        }
      }
    }
  }

  /**
   * `GitStatus.render`: `x` is `status[0:1]` and `y` is `status[1:2]`, so a
   * two-letter code splits into its two letters.
   */
  function Render(e: GitStatus): (r: RenderedCode)
    ensures r.path == e.path
    ensures |r.x| <= 1 && |r.y| <= 1
    ensures r.x + r.y == Take(e.status, 2)
    ensures |e.status| >= 1 ==> r.x == [e.status[0]]
    ensures |e.status| >= 2 ==> r.y == [e.status[1]]
  {
    RenderedCode(e.path, Slice(e.status, 0, 1), Slice(e.status, 1, 2))
  }

  lemma RenderExamples()
    ensures Render(GitStatus("src/a.c", " M")) == RenderedCode("src/a.c", " ", "M")
    ensures Render(Placeholder) == RenderedCode("", " ", " ")
  {
  }

  /** `Git.dirty`: true as soon as the status generator yields its first entry. */
  method IsDirty(report: string) returns (dirty: bool)
    ensures dirty <==> ParseStatus(report) != []
  {
    var records := Split(report, NUL);
    var i := 0;
    while i < |records|
      invariant 0 <= i <= |records|
      invariant forall k :: 0 <= k < i ==> records[k] == ""
    {
      if |records[i]| > 0 {
        return true;
      }
      i := i + 1;
    }
    return false;
  }

  // ---------------------------------------------------------------------
  // The record format git writes, and the round trip through the parser.

  /** A record `XY PATH` as git writes it. */
  function Record(e: GitStatus): string { e.status + " " + e.path }

  function Records(entries: seq<GitStatus>): (records: seq<string>)
    ensures |records| == |entries|
    ensures forall i :: 0 <= i < |entries| ==> records[i] == Record(entries[i])
  {
    if entries == [] then [] else [Record(entries[0])] + Records(entries[1..])
  }

  /** The report for `entries`: every record followed by a NUL. */
  function Report(entries: seq<GitStatus>): string
  {
    Join(Records(entries) + [""], NUL)
  }

  /** An entry git can write: a two-letter code, and no NUL anywhere. */
  predicate WellFormed(e: GitStatus)
  {
    |e.status| == 2 && NUL !in e.status && NUL !in e.path
  }

  lemma ParseRecord(e: GitStatus)
    requires WellFormed(e)
    ensures NUL !in Record(e)
    ensures ParseLine(Record(e)) == e
  {
  }

  /** Splitting `a + b` where `a` holds no separator glues `a` to the first part of `b`. */
  lemma {:induction false} SplitPrefix(a: string, b: string, sep: char)
    requires sep !in a
    ensures Split(a + b, sep) == [a + Split(b, sep)[0]] + Split(b, sep)[1..]
    decreases |a|
  {
    if a == [] {
      var r := Split(b, sep);
      assert a + b == b && a + r[0] == r[0];
      assert r == [r[0]] + r[1..];
    } else {
      assert (a + b)[0] == a[0] && a[0] in a;
      assert (a + b)[1..] == a[1..] + b;
      SplitPrefix(a[1..], b, sep);
      assert [a[0]] + (a[1..] + Split(b, sep)[0]) == a + Split(b, sep)[0];
    }
  }

  /** The report of a non-empty list splits into the first record and the rest's split. */
  lemma SplitReport(entries: seq<GitStatus>)
    requires entries != [] && WellFormed(entries[0])
    ensures Split(Report(entries), NUL) == [Record(entries[0])] + Split(Report(entries[1..]), NUL)
  {
    var e, rest := entries[0], entries[1..];
    ParseRecord(e);
    var parts := Records(entries) + [""];
    assert parts[0] == Record(e);
    assert parts[1..] == Records(rest) + [""];
    assert Report(entries) == Record(e) + ([NUL] + Report(rest));
    SplitPrefix(Record(e), [NUL] + Report(rest), NUL);
    var tail := Split([NUL] + Report(rest), NUL);
    assert ([NUL] + Report(rest))[1..] == Report(rest);
    assert tail == [""] + Split(Report(rest), NUL);
    assert tail[0] == "" && tail[1..] == Split(Report(rest), NUL);
    assert Record(e) + tail[0] == Record(e);
  }

  /** Parsing the report of well-formed entries gives those entries back, in order. */
  lemma {:induction false} ParseReport(entries: seq<GitStatus>)
    requires forall i :: 0 <= i < |entries| ==> WellFormed(entries[i])
    ensures ParseStatus(Report(entries)) == entries
    decreases |entries|
  {
    if entries == [] {
      assert Report(entries) == "";
    } else {
      var rest := entries[1..];
      assert forall i :: 0 <= i < |rest| ==> rest[i] == entries[i + 1];
      ParseReport(rest);
      ParseRecord(entries[0]);
      SplitReport(entries);
      var records := Split(Report(entries), NUL);
      assert records[0] == Record(entries[0]) != "";
      assert records[1..] == Split(Report(rest), NUL);
      assert ParseRecords(records) == [entries[0]] + ParseRecords(records[1..]);
      assert entries == [entries[0]] + rest;
    }
  }

  /** The entries of consecutive records are the entries of each part, in order. */
  lemma {:induction false} ParseRecordsAppend(a: seq<string>, b: seq<string>)
    ensures ParseRecords(a + b) == ParseRecords(a) + ParseRecords(b)
    decreases |a|
  {
    if a != [] {
      assert (a + b)[0] == a[0];
      assert (a + b)[1..] == a[1..] + b;
      ParseRecordsAppend(a[1..], b);
    } else {
      assert a + b == b;
    }
  }

  /**
   * A report that starts with one record: the entry of that record, if it is
   * non-empty, comes first, then the entries of the rest of the report.
   */
  lemma ParseStatusPrefix(record: string, rest: string)
    requires NUL !in record
    ensures ParseStatus(record + [NUL] + rest) == ParseRecords([record]) + ParseStatus(rest)
  {
    var tail := Split([NUL] + rest, NUL);
    assert ([NUL] + rest)[1..] == rest;
    assert tail == [""] + Split(rest, NUL);
    assert record + [NUL] + rest == record + ([NUL] + rest);
    SplitPrefix(record, [NUL] + rest, NUL);
    assert record + tail[0] == record && tail[1..] == Split(rest, NUL);
    assert Split(record + [NUL] + rest, NUL) == [record] + Split(rest, NUL);
    ParseRecordsAppend([record], Split(rest, NUL));
  }

  /**
   * A rename or copy is written as `XY TO\0FROM\0`; wherever it stands in a
   * report, the source path after the second NUL is parsed as an entry of
   * its own, whose code is the first two characters of that path, and the
   * entries of the rest of the report follow.
   */
  lemma RenameGivesTwoEntries(code: string, to: string, from: string, rest: string)
    requires |code| == 2 && NUL !in code && NUL !in to && NUL !in from && from != ""
    ensures ParseStatus(code + " " + to + [NUL] + from + [NUL] + rest)
         == [GitStatus(to, code), ParseLine(from)] + ParseStatus(rest)
  {
    var first := code + " " + to;
    ParseRecord(GitStatus(to, code));
    assert first + [NUL] + from + [NUL] + rest == first + [NUL] + (from + [NUL] + rest);
    ParseStatusPrefix(first, from + [NUL] + rest);
    ParseStatusPrefix(from, rest);
    assert ParseRecords([first]) == [GitStatus(to, code)];
    assert ParseRecords([from]) == [ParseLine(from)];
  }
}
