/**
  The Python string methods the dictionary application relies on:
  `str.find` and `str.split(sep)` (used to turn a stored field such as
  "joyful, cheerful, content" into a list), the inverse `sep.join(parts)`,
  and `str.lower()` / `str.strip()` (used to normalise the submitted word).
 */
module PyStr {

  // ---------------------------------------------------------------------------
  // Searching and splitting
  // ---------------------------------------------------------------------------

  /** `sep` occurs in `s` starting at index `i`. */
  predicate OccursAt(s: string, sep: string, i: nat) {
    i + |sep| <= |s| && s[i..i + |sep|] == sep
  }

  /** Python's `sep in s`. */
  ghost predicate Contains(s: string, sep: string) {
    exists i: nat :: OccursAt(s, sep, i)
  }

  /**
    Python's `s.find(sep)` for a non-empty `sep`: the lowest index at which
    `sep` occurs, or -1. (Python also accepts an empty `sep`, found at 0; the
    only caller here, `Split`, never passes one.)
   */
  function Find(s: string, sep: string): (i: int)
    requires |sep| > 0
    ensures -1 <= i <= |s|
    ensures i < 0 ==> forall j: nat :: !OccursAt(s, sep, j)
    ensures i >= 0 ==> OccursAt(s, sep, i) && forall j: nat :: j < i ==> !OccursAt(s, sep, j)
    decreases |s|
  {
    if |s| < |sep| then -1
    else if s[..|sep|] == sep then 0
    else
      OccursShift(s, sep);
      var j := Find(s[1..], sep);
      if j < 0 then -1 else j + 1
  }

  /** Occurrences in `s` past its first character are occurrences in `s[1..]`, one to the left. */
  lemma OccursShift(s: string, sep: string)
    requires |s| > 0
    ensures OccursAt(s, sep, 0) <==> |sep| <= |s| && s[..|sep|] == sep
    ensures forall j: nat :: 1 <= j ==> (OccursAt(s, sep, j) <==> OccursAt(s[1..], sep, j - 1))
  {
    forall j: nat | 1 <= j
      ensures OccursAt(s, sep, j) <==> OccursAt(s[1..], sep, j - 1)
    {
      if j + |sep| <= |s| {
        assert s[1..][j - 1..j - 1 + |sep|] == s[j..j + |sep|];
      }
    }
  }

  /** Python's `sep.join(parts)`. */
  function Join(parts: seq<string>, sep: string): string {
    if |parts| == 0 then ""
    else if |parts| == 1 then parts[0]
    else parts[0] + sep + Join(parts[1..], sep)
  }

  /**
    Python's `s.split(sep)` for a non-empty separator (Python raises
    `ValueError` on an empty one): cut at the leftmost occurrence of `sep`
    and go on after it. The parts join back to `s`, none of them contains
    `sep`, and there is always at least one part (`"".split(sep) == [""]`).
   */
  function Split(s: string, sep: string): (parts: seq<string>)
    requires |sep| > 0
    ensures |parts| >= 1
    ensures Join(parts, sep) == s
    ensures forall k :: 0 <= k < |parts| ==> !Contains(parts[k], sep)
    decreases |s|
  {
    var i := Find(s, sep);
    if i < 0 then
      [s]
    else
      NoOccurrenceBefore(s, sep, i);
      var rest := Split(s[i + |sep|..], sep);
      assert ([s[..i]] + rest)[1..] == rest;
      assert s[..i] + sep + s[i + |sep|..] == s by {
        assert s == s[..i] + s[i..i + |sep|] + s[i + |sep|..];
      }
      [s[..i]] + rest
  }

  /** Splitting the empty string gives one empty part, not an empty list. */
  lemma SplitEmpty(sep: string)
    requires |sep| > 0
    ensures Split("", sep) == [""]
  {
    assert Find("", sep) < 0;
  }

  /** The text before the leftmost occurrence of `sep` does not contain `sep`. */
  lemma NoOccurrenceBefore(s: string, sep: string, i: nat)
    requires |sep| > 0 && i <= |s|
    requires forall j: nat :: j < i ==> !OccursAt(s, sep, j)
    ensures !Contains(s[..i], sep)
  {
    forall j: nat
      ensures !OccursAt(s[..i], sep, j)
    {
      if j + |sep| <= i {
        assert s[..i][j..j + |sep|] == s[j..j + |sep|];
        assert !OccursAt(s, sep, j);
      }
    }
  }

  /** No non-empty proper prefix of `sep` is also a suffix of it. */
  predicate Unbordered(sep: string) {
    forall k :: 0 < k < |sep| ==> sep[..k] != sep[|sep| - k..]
  }

  /** The separator the application splits on has no border. */
  lemma CommaSpaceUnbordered()
    ensures Unbordered(", ")
  {
    assert ", "[..1] == [','] && ", "[1..] == [' '];
  }

  /**
    When no part contains an unbordered `sep`, the first occurrence of `sep`
    in `p + sep + rest` is the one written right after `p`.
   */
  lemma FindAfterPart(p: string, sep: string, rest: string)
    requires |sep| > 0 && Unbordered(sep) && !Contains(p, sep)
    ensures Find(p + sep + rest, sep) == |p|
  {
    var s := p + sep + rest;
    var n := |sep|;
    assert s[|p|..|p| + n] == sep;
    assert OccursAt(s, sep, |p|);
    forall j: nat | j < |p|
      ensures !OccursAt(s, sep, j)
    {
      if j + n <= |p| {
        assert s[j..j + n] == p[j..j + n];
        assert !OccursAt(p, sep, j);
      } else {
        // `sep` written at |p| overlaps an occurrence at j by n - k characters,
        // which would make sep[k..] a border of `sep`.
        var k := |p| - j;
        assert sep[..n - k] != sep[n - (n - k)..];
        assert exists u :: 0 <= u < n - k && sep[u] != sep[k + u];
        var u :| 0 <= u < n - k && sep[u] != sep[k + u];
        assert s[j + k + u] == sep[u];
        assert s[j..j + n][k + u] != sep[k + u];
      }
    }
  }

  /**
    Round trip in the other direction: splitting a join gives back the parts,
    provided there is at least one part, no part contains `sep` and `sep`
    has no border.
   */
  lemma {:induction false} SplitJoin(parts: seq<string>, sep: string)
    requires |sep| > 0 && Unbordered(sep) && |parts| >= 1
    requires forall k :: 0 <= k < |parts| ==> !Contains(parts[k], sep)
    ensures Split(Join(parts, sep), sep) == parts
    decreases |parts|
  {
    if |parts| == 1 {
      var s := parts[0];
      assert Find(s, sep) < 0;
    } else {
      var rest := Join(parts[1..], sep);
      FindAfterPart(parts[0], sep, rest);
      var s := parts[0] + sep + rest;
      assert s[..|parts[0]|] == parts[0];
      assert s[|parts[0]| + |sep|..] == rest;
      SplitJoin(parts[1..], sep);
      assert parts == [parts[0]] + parts[1..];
    }
  }

  /** A string without a comma cannot contain ", ". */
  lemma NoCommaNoDelimiter(s: string)
    requires forall k :: 0 <= k < |s| ==> s[k] != ','
    ensures !Contains(s, ", ")
  {
    forall j: nat | j + 2 <= |s|
      ensures !OccursAt(s, ", ", j)
    {
      assert s[j..j + 2][0] == s[j];
    }
  }

  // ---------------------------------------------------------------------------
  // Case folding and whitespace trimming
  // ---------------------------------------------------------------------------

  /** Python's `str.isspace` for a single character. */
  predicate IsSpace(c: char) {
    || '\t' <= c <= '\r'                 // tab, line feed, vertical tab, form feed, carriage return
    || '\U{1C}' <= c <= '\U{1F}'         // file, group, record and unit separators
    || c == ' '
    || c == '\U{85}' || c == '\U{A0}' || c == '\U{1680}'
    || '\U{2000}' <= c <= '\U{200A}'
    || c == '\U{2028}' || c == '\U{2029}' || c == '\U{202F}' || c == '\U{205F}' || c == '\U{3000}'
  }

  /** An upper-case letter of the ASCII and Latin-1 ranges. */
  predicate IsUpper(c: char) {
    || 'A' <= c <= 'Z'
    || ('\U{C0}' <= c <= '\U{DE}' && c != '\U{D7}')
  }

  /** Python's lower-casing of one character, on the ASCII and Latin-1 ranges. */
  function LowerChar(c: char): (d: char)
    ensures IsUpper(c) ==> d as int == c as int + 32
    ensures !IsUpper(d)
    ensures IsSpace(d) <==> IsSpace(c)
    ensures !IsUpper(c) ==> d == c
  {
    if IsUpper(c) then (c as int + 32) as char else c
  }

  /** Python's `s.lower()`. */
  function Lower(s: string): (r: string)
    ensures |r| == |s|
    ensures forall i :: 0 <= i < |r| ==> !IsUpper(r[i])
    ensures forall i :: 0 <= i < |r| ==> (IsSpace(r[i]) <==> IsSpace(s[i]))
    ensures forall i :: 0 <= i < |r| ==> IsUpper(s[i]) || r[i] == s[i]
    ensures forall i :: 0 <= i < |r| && IsUpper(s[i]) ==> r[i] as int == s[i] as int + 32
  {
    seq(|s|, i requires 0 <= i < |s| => LowerChar(s[i]))
  }

  /** The number of whitespace characters at the start of `s`. */
  function LeadingSpaces(s: string): (n: nat)
    ensures n <= |s|
    ensures forall k :: 0 <= k < n ==> IsSpace(s[k])
    ensures n == |s| || !IsSpace(s[n])
    decreases |s|
  {
    if |s| > 0 && IsSpace(s[0]) then 1 + LeadingSpaces(s[1..]) else 0
  }

  /** The number of whitespace characters at the end of `s`. */
  function TrailingSpaces(s: string): (n: nat)
    ensures n <= |s|
    ensures forall k :: |s| - n <= k < |s| ==> IsSpace(s[k])
    ensures n == |s| || !IsSpace(s[|s| - n - 1])
    decreases |s|
  {
    if |s| > 0 && IsSpace(s[|s| - 1]) then 1 + TrailingSpaces(s[..|s| - 1]) else 0
  }

  /**
    Python's `s.strip()`: the slice of `s` left once the leading and the
    trailing whitespace are cut off. What remains is empty or begins and
    ends with a non-space character, and everything cut off is whitespace.
   */
  function Strip(s: string): (r: string)
    ensures LeadingSpaces(s) + |r| <= |s|
    ensures r == s[LeadingSpaces(s)..LeadingSpaces(s) + |r|]
    ensures forall k :: 0 <= k < LeadingSpaces(s) ==> IsSpace(s[k])
    ensures forall k :: LeadingSpaces(s) + |r| <= k < |s| ==> IsSpace(s[k])
    ensures r == [] || (!IsSpace(r[0]) && !IsSpace(r[|r| - 1]))
  {
    var lo := LeadingSpaces(s);
    var t := s[lo..];
    t[..|t| - TrailingSpaces(t)]
  }

  /**
    Strip is determined by its contract: cutting whitespace `pre` and `post`
    off a core that neither begins nor ends with whitespace gives the core.
   */
  lemma StripExact(pre: string, core: string, post: string)
    requires forall k :: 0 <= k < |pre| ==> IsSpace(pre[k])
    requires forall k :: 0 <= k < |post| ==> IsSpace(post[k])
    requires core == [] || (!IsSpace(core[0]) && !IsSpace(core[|core| - 1]))
    ensures Strip(pre + core + post) == core
  {
    var s := pre + core + post;
    var r := Strip(s);
    var lo := LeadingSpaces(s);
    if core == [] {
      assert forall k :: 0 <= k < |s| ==> IsSpace(s[k]);
      assert lo == |s|;
    } else {
      assert !IsSpace(s[|pre|]);
      assert lo == |pre|;
      assert !IsSpace(s[|pre| + |core| - 1]);
      assert |r| == |core|;
      assert s[|pre|..|pre| + |core|] == core;
    }
  }

  /** Stripping twice is stripping once. */
  lemma StripIdempotent(s: string)
    ensures Strip(Strip(s)) == Strip(s)
  {
    var r := Strip(s);
    StripExact([], r, []);
    assert [] + r + [] == r;
  }

  /** A string strips to nothing exactly when it is all whitespace. */
  lemma StripEmptyIff(s: string)
    ensures Strip(s) == [] <==> forall k :: 0 <= k < |s| ==> IsSpace(s[k])
  {
    if forall k :: 0 <= k < |s| ==> IsSpace(s[k]) {
      StripExact(s, [], []);
      assert s + [] + [] == s;
    }
  }
}
