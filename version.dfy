/**
 * The version string derived from the repository's query results
 * (adverse.py, the body of `main` from the tag lookup to the dirty suffix).
 */
module Version {
  import opened Wrappers
  import opened Porcelain

  /** A commit date; only its `%Y%m%d` formatting is modelled. */
  datatype Date = Date(year: int, month: int, day: int)

  /** A date `datetime` can hold, with a four-digit year. */
  predicate ValidDate(d: Date)
  {
    1000 <= d.year <= 9999 && 1 <= d.month <= 12 && 1 <= d.day <= 31
  }

  /** `str.isdecimal` on one character, restricted to ASCII digits. */
  predicate IsDecimal(c: char) { '0' <= c <= '9' }

  predicate AllDecimal(s: string)
  {
    forall i :: 0 <= i < |s| ==> IsDecimal(s[i])
  }

  function DigitChar(n: nat): char
    requires n < 10
  {
    ('0' as int + n) as char
  }

  function Pow10(n: nat): nat
  {
    if n == 0 then 1 else 10 * Pow10(n - 1)
  }

  /** The value of a string of decimal digits. */
  function DecimalValue(s: string): nat
    requires AllDecimal(s)
  {
    if s == [] then 0
    else DecimalValue(s[..|s| - 1]) * 10 + (s[|s| - 1] as int - '0' as int)
  }

  /** `n` written in exactly `width` decimal digits, with leading zeros. */
  function ZeroPad(n: nat, width: nat): (s: string)
    ensures |s| == width
    ensures AllDecimal(s)
  {
    if width == 0 then "" else ZeroPad(n / 10, width - 1) + [DigitChar(n % 10)]
  }

  /** Zero-padding is undone by reading the digits back, when `n` fits the width. */
  lemma {:induction false} ZeroPadValue(n: nat, width: nat)
    requires n < Pow10(width)
    ensures DecimalValue(ZeroPad(n, width)) == n
  {
    if width > 0 {
      ZeroPadValue(n / 10, width - 1);
      var s := ZeroPad(n, width);
      assert s[..|s| - 1] == ZeroPad(n / 10, width - 1);
    }
  }

  /** `strftime("%Y%m%d")`: eight decimal digits. */
  function FormatDate(d: Date): (s: string)
    requires ValidDate(d)
    ensures |s| == 8 && AllDecimal(s)
  {
    ZeroPad(d.year, 4) + ZeroPad(d.month, 2) + ZeroPad(d.day, 2)
  }

  /** The date stamp reads back as the year, the month and the day. */
  lemma FormatDateDecodes(d: Date)
    requires ValidDate(d)
    ensures DecimalValue(FormatDate(d)[..4]) == d.year
    ensures DecimalValue(FormatDate(d)[4..6]) == d.month
    ensures DecimalValue(FormatDate(d)[6..]) == d.day
  {
    var s := FormatDate(d);
    assert Pow10(2) == 100 && Pow10(4) == 10000;
    ZeroPadValue(d.year, 4);
    ZeroPadValue(d.month, 2);
    ZeroPadValue(d.day, 2);
    assert s[..4] == ZeroPad(d.year, 4);
    assert s[4..6] == ZeroPad(d.month, 2);
    assert s[6..] == ZeroPad(d.day, 2);
  }

  lemma FormatDateExample()
    ensures FormatDate(Date(2024, 3, 5)) == "20240305"
  {
  }

  /** Python's `commit[:7]`: the first seven characters, or all of a shorter hash. */
  function ShortCommit(commit: string): (short: string)
    ensures short <= commit
    ensures |short| == Min(7, |commit|)
  {
    Take(commit, 7)
  }

  /** A tag of the form `v<digit>...`. */
  predicate HasVersionPrefix(tag: string)
  {
    |tag| >= 2 && tag[0] == 'v' && IsDecimal(tag[1])
  }

  /**
   * Drops the `v` of a `v<digit>...` tag and keeps any other tag verbatim;
   * the result never has that prefix itself.
   */
  function Canonicalise(tag: string): (version: string)
    ensures HasVersionPrefix(tag) ==> ['v'] + version == tag
    ensures !HasVersionPrefix(tag) ==> version == tag
    ensures !HasVersionPrefix(version)
  {
    if HasVersionPrefix(tag) then tag[1..] else tag
  }

  lemma CanonicaliseIdempotent(tag: string)
    ensures Canonicalise(Canonicalise(tag)) == Canonicalise(tag)
  {
  }

  lemma CanonicaliseExamples()
    ensures Canonicalise("v2.0.1") == "2.0.1"
    ensures Canonicalise("version1") == "version1"
  {
  }

  /** Python's truth value of an optional string: present and non-empty. */
  predicate Truthy(s: Option<string>)
  {
    s.Some? && s.value != ""
  }

  /** What an f-string writes for an optional string: `None` when it is absent. */
  function Text(s: Option<string>): string
  {
    match s
    case Some(v) => v
    case None => "None"
  }

  /** `<commit[:7]>-<YYYYMMDD>`. */
  function Stamp(commit: string, date: Date): (stamp: string)
    requires ValidDate(date)
    ensures |stamp| == Min(7, |commit|) + 9
  {
    ShortCommit(commit) + "-" + FormatDate(date)
  }

  /** The tag name with its `v<digit>` prefix dropped, if there is a tag. */
  function CanonicalTag(tag: Option<string>): Option<string>
  {
    match tag
    case Some(t) => Some(Canonicalise(t))
    case None => None
  }

  /** The version before the dirty step: ahead of a tagged commit, at a tag, or untagged. */
  function BaseVersion(commit: string, tagged: Option<string>, tag: Option<string>,
                       date: Date): string
    requires ValidDate(date)
  {
    if Truthy(tagged) && tagged.value != commit then
      Text(CanonicalTag(tag)) + "-next-" + Stamp(commit, date)
    else if tag.Some? then
      Canonicalise(tag.value)
    else
      Stamp(commit, date)
  }

  /** The version string: the base version, then `-dirty` for a dirty tree. */
  function VersionString(commit: string, tagged: Option<string>, tag: Option<string>,
                         date: Date, dirty: bool): string
    requires ValidDate(date)
  {
    BaseVersion(commit, tagged, tag, date) + (if dirty then "-dirty" else "")
  }

  /**
   * The resolution steps of `main` in order: start from the tag, drop its
   * `v`, mark a HEAD that is ahead of the newest tagged commit, fall back to
   * the short hash and date when there is no tag, and mark a dirty tree.
   * `dirtyMarker` says whether `GIT_DIRTY` is written.
   */
  method ResolveVersion(commit: string, tagged: Option<string>, tag: Option<string>,
                        date: Date, dirtyFiles: seq<GitStatus>)
    returns (version: string, dirtyMarker: bool)
    requires ValidDate(date)
    ensures dirtyMarker <==> |dirtyFiles| > 0
    ensures version == VersionString(commit, tagged, tag, date, dirtyMarker)
  {
    var current := tag;
    if current.Some? && |current.value| >= 2 {
      if current.value[0] == 'v' && IsDecimal(current.value[1]) {
        current := Some(current.value[1..]);
      }
    }
    assert current == CanonicalTag(tag);
    var commitDate := FormatDate(date);
    if tagged.Some? && tagged.value != "" {
      if commit != tagged.value {
        current := Some(Text(current) + "-next-" + ShortCommit(commit) + "-" + commitDate);
        assert current.value == Text(CanonicalTag(tag)) + "-next-" + Stamp(commit, date);
      }
    }
    if current.None? {
      current := Some(ShortCommit(commit) + "-" + commitDate);
    }
    assert current == Some(BaseVersion(commit, tagged, tag, date));
    version := current.value;
    dirtyMarker := false;
    var dirtyCount := |dirtyFiles|;
    if dirtyCount > 0 {
      dirtyMarker := true;
      version := version + "-dirty";
    }
  }

  // ---------------------------------------------------------------------
  // The cases of the version string.

  /** No tag at all: the short hash and the commit date. */
  lemma VersionWithoutTag(commit: string, tagged: Option<string>, date: Date, dirty: bool)
    requires ValidDate(date) && !Truthy(tagged)
    ensures VersionString(commit, tagged, None, date, dirty)
         == ShortCommit(commit) + "-" + FormatDate(date) + (if dirty then "-dirty" else "")
  {
  }

  /** The newest tagged commit is HEAD: the canonical tag, with no `-next-` part. */
  lemma VersionAtTag(commit: string, tag: string, date: Date, dirty: bool)
    requires ValidDate(date)
    ensures VersionString(commit, Some(commit), Some(tag), date, dirty)
         == Canonicalise(tag) + (if dirty then "-dirty" else "")
  {
  }

  /** HEAD is past the newest tagged commit: canonical tag, `-next-`, short hash, date. */
  lemma VersionAheadOfTag(commit: string, tagged: string, tag: string, date: Date, dirty: bool)
    requires ValidDate(date) && tagged != "" && tagged != commit
    ensures VersionString(commit, Some(tagged), Some(tag), date, dirty)
         == Canonicalise(tag) + "-next-" + ShortCommit(commit) + "-" + FormatDate(date)
            + (if dirty then "-dirty" else "")
  {
  }

  /**
   * A tagged commit whose tag lookup failed: the absent tag is written as
   * the text `None`, and the short-hash fallback is skipped.
   */
  lemma VersionAheadWithoutTagName(commit: string, tagged: string, date: Date, dirty: bool)
    requires ValidDate(date) && tagged != "" && tagged != commit
    ensures VersionString(commit, Some(tagged), None, date, dirty)
         == "None-next-" + ShortCommit(commit) + "-" + FormatDate(date)
            + (if dirty then "-dirty" else "")
  {
  }

  /** `-dirty` is the last step and is added once, exactly for a dirty tree. */
  lemma DirtySuffix(commit: string, tagged: Option<string>, tag: Option<string>, date: Date)
    requires ValidDate(date)
    ensures VersionString(commit, tagged, tag, date, true)
         == VersionString(commit, tagged, tag, date, false) + "-dirty"
  {
  }

  /** A clean tree can still give a version ending in `-dirty`, if the tag itself does. */
  lemma CleanVersionEndingInDirty(date: Date)
    requires ValidDate(date)
    ensures VersionString("0123456789", Some("0123456789"), Some("rc-dirty"), date, false)
         == "rc-dirty"
  {
  }
}
