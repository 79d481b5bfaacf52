/** Turning a load request into document paths: the comma split, the
    whitespace strip, the data path fallback and path resolution. */
module Identifiers {

  import opened Values

  /** The characters Ruby's `String#strip` removes: NUL, tab, line feed,
      vertical tab, form feed, carriage return and space. */
  predicate IsWhitespace(c: char)
  {
    c == '\0' || c == '\t' || c == '\n' || c == '\U{B}' || c == '\U{C}' || c == '\r' || c == ' '
  }

  predicate AllWhitespace(s: string)
  {
    forall i :: 0 <= i < |s| ==> IsWhitespace(s[i])
  }

  function StripLeft(s: string): string
  {
    if s != [] && IsWhitespace(s[0]) then StripLeft(s[1..]) else s
  }

  function StripRight(s: string): string
  {
    if s != [] && IsWhitespace(s[|s| - 1]) then StripRight(s[..|s| - 1]) else s
  }

  /** `String#strip`. */
  function Strip(s: string): string
  {
    StripRight(StripLeft(s))
  }

  lemma {:induction false} StripLeftIsSuffix(s: string)
    ensures |StripLeft(s)| <= |s|
    ensures StripLeft(s) == s[|s| - |StripLeft(s)|..]
    ensures AllWhitespace(s[..|s| - |StripLeft(s)|])
    ensures StripLeft(s) == [] || !IsWhitespace(StripLeft(s)[0])
  {
    if s != [] && IsWhitespace(s[0]) {
      var t := s[1..];
      StripLeftIsSuffix(t);
      var i := |t| - |StripLeft(t)|;
      assert s[i + 1..] == t[i..];
      assert s[..i + 1] == [s[0]] + t[..i];
    }
  }

  lemma {:induction false} StripRightIsPrefix(s: string)
    ensures |StripRight(s)| <= |s|
    ensures StripRight(s) == s[..|StripRight(s)|]
    ensures AllWhitespace(s[|StripRight(s)|..])
    ensures StripRight(s) == [] || !IsWhitespace(StripRight(s)[|StripRight(s)| - 1])
  {
    if s != [] && IsWhitespace(s[|s| - 1]) {
      var t := s[..|s| - 1];
      StripRightIsPrefix(t);
      var j := |StripRight(t)|;
      assert s[..j] == t[..j];
      assert s[j..] == t[j..] + [s[|s| - 1]];
    }
  }

  /** The stripped identifier is the part of `s` between a run of leading and a
      run of trailing whitespace, and neither of its ends is whitespace. */
  lemma StripIsTrimmedSlice(s: string)
    ensures exists i, j {:trigger s[i..j]} :: 0 <= i <= j <= |s| && Strip(s) == s[i..j]
                           && AllWhitespace(s[..i]) && AllWhitespace(s[j..])
    ensures Strip(s) == [] || (!IsWhitespace(Strip(s)[0]) && !IsWhitespace(Strip(s)[|Strip(s)| - 1]))
  {
    StripLeftIsSuffix(s);
    var t := StripLeft(s);
    var i := |s| - |t|;
    StripRightIsPrefix(t);
    var j := |StripRight(t)|;
    assert Strip(s) == s[i..i + j];
    assert s[i + j..] == t[j..];
    if Strip(s) != [] {
      StripRightKeepsFirst(t);
    }
  }

  lemma {:induction false} StripLeftFixed(s: string)
    requires s == [] || !IsWhitespace(s[0])
    ensures StripLeft(s) == s
  {
  }

  lemma {:induction false} StripRightKeepsFirst(s: string)
    requires s != [] && !IsWhitespace(s[0])
    ensures StripRight(s) != [] && StripRight(s)[0] == s[0]
  {
    if IsWhitespace(s[|s| - 1]) {
      StripRightKeepsFirst(s[..|s| - 1]);
    }
  }

  lemma {:induction false} StripRightFixed(s: string)
    requires s == [] || !IsWhitespace(s[|s| - 1])
    ensures StripRight(s) == s
  {
  }

  /** Stripping an identifier twice is the same as stripping it once. */
  lemma StripIdempotent(s: string)
    ensures Strip(Strip(s)) == Strip(s)
  {
    StripIsTrimmedSlice(s);
    var t := Strip(s);
    StripLeftFixed(t);
    StripRightFixed(t);
  }

  /** Splits `s` at every occurrence of `c`, keeping empty fields. */
  function SplitOn(s: string, c: char): (parts: seq<string>)
    ensures |parts| >= 1
  {
    if c !in s then [s]
    else
      var i := IndexOf(s, c);
      [s[..i]] + SplitOn(s[i + 1..], c)
  }

  function IndexOf(s: string, c: char): (i: nat)
    requires c in s
    ensures i < |s| && s[i] == c && c !in s[..i]
  {
    if s[0] == c then 0 else 1 + IndexOf(s[1..], c)
  }

  /** Joins `parts` with `c` between neighbours. */
  function Join(parts: seq<string>, c: char): string
    requires |parts| >= 1
  {
    if |parts| == 1 then parts[0] else parts[0] + [c] + Join(parts[1..], c)
  }

  /** Splitting at `c` loses nothing: the fields joined back with `c` give the
      original text, and no field contains `c`. */
  lemma {:induction false} SplitJoinRoundTrip(s: string, c: char)
    ensures Join(SplitOn(s, c), c) == s
    ensures forall k :: 0 <= k < |SplitOn(s, c)| ==> c !in SplitOn(s, c)[k]
    decreases |s|
  {
    if c in s {
      var i := IndexOf(s, c);
      SplitJoinRoundTrip(s[i + 1..], c);
      assert s == s[..i] + [c] + s[i + 1..];
    }
  }

  /** Drops the empty fields at the end, as Ruby's `split` does. */
  function DropTrailingEmpty(parts: seq<string>): (r: seq<string>)
  {
    if parts != [] && parts[|parts| - 1] == [] then DropTrailingEmpty(parts[..|parts| - 1]) else parts
  }

  /** What is dropped is a run of empty fields at the end, and what stays does
      not end in an empty field. */
  lemma {:induction false} DropTrailingEmptyIsPrefix(parts: seq<string>)
    ensures |DropTrailingEmpty(parts)| <= |parts|
    ensures DropTrailingEmpty(parts) == parts[..|DropTrailingEmpty(parts)|]
    ensures forall k :: |DropTrailingEmpty(parts)| <= k < |parts| ==> parts[k] == []
    ensures DropTrailingEmpty(parts) == [] || DropTrailingEmpty(parts)[|DropTrailingEmpty(parts)| - 1] != []
  {
    if parts != [] && parts[|parts| - 1] == [] {
      DropTrailingEmptyIsPrefix(parts[..|parts| - 1]);
    }
  }

  /** Ruby's `String#split(",")`. */
  function RubySplit(s: string): seq<string>
  {
    DropTrailingEmpty(SplitOn(s, ','))
  }

  function StripAll(parts: seq<string>): (r: seq<string>)
    ensures |r| == |parts|
    ensures forall k :: 0 <= k < |parts| ==> r[k] == Strip(parts[k])
  {
    if parts == [] then [] else [Strip(parts[0])] + StripAll(parts[1..])
  }

  /** The identifiers of a load request: a list without a comma is one
      identifier; otherwise the list is split at its commas. Every identifier is
      stripped (lib/data_reader.rb:29-30). */
  function SplitList(fileList: string): seq<string>
  {
    if ',' in fileList then StripAll(RubySplit(fileList)) else [Strip(fileList)]
  }

  /** A request without a comma is exactly one identifier, the stripped request;
      the separate no-comma branch only matters for the empty request, which
      `split` alone would turn into no identifier at all. */
  lemma SplitListNoComma(fileList: string)
    requires ',' !in fileList
    ensures SplitList(fileList) == [Strip(fileList)]
    ensures fileList != [] ==> SplitList(fileList) == StripAll(RubySplit(fileList))
    ensures RubySplit([]) == []
  {
  }

  /** A request with commas gives, in order, the stripped comma-free fields
      between its commas, minus the empty fields at its end. */
  lemma SplitListWithCommas(fileList: string)
    requires ',' in fileList
    ensures var fields := SplitOn(fileList, ',');
            var ids := SplitList(fileList);
            && |ids| <= |fields|
            && Join(fields, ',') == fileList
            && (forall k :: 0 <= k < |ids| ==> ids[k] == Strip(fields[k]) && ',' !in fields[k])
            && (forall k :: |ids| <= k < |fields| ==> fields[k] == [])
            && (|ids| > 0 ==> fields[|ids| - 1] != [])
  {
    SplitJoinRoundTrip(fileList, ',');
    DropTrailingEmptyIsPrefix(SplitOn(fileList, ','));
    var fields := SplitOn(fileList, ',');
    var kept := DropTrailingEmpty(fields);
    forall k | 0 <= k < |kept|
      ensures kept[k] == fields[k]
    {
      assert kept == fields[..|kept|];
    }
  }

  /** `Pathname#absolute?`, taken as "starts with a slash". */
  predicate IsAbsolute(id: string)
  {
    |id| > 0 && id[0] == '/'
  }

  /** The data path as string interpolation renders it: nil renders empty. */
  function PathText(dataPath: Option<string>): string
  {
    match dataPath
    case Some(p) => p
    case None => ""
  }

  /** The location read for identifier `id` (lib/data_reader.rb:39). */
  function Resolve(id: string, dataPath: Option<string>): (path: string)
  {
    if IsAbsolute(id) then id else PathText(dataPath) + "/" + id
  }

  /** An absolute identifier is read where it says; a relative one under the
      data path, joined by one slash, whatever exists on disk. */
  lemma ResolveCases(id: string, dataPath: Option<string>)
    ensures IsAbsolute(id) ==> Resolve(id, dataPath) == id
    ensures !IsAbsolute(id) ==>
              && |Resolve(id, dataPath)| == |PathText(dataPath)| + 1 + |id|
              && Resolve(id, dataPath)[..|PathText(dataPath)|] == PathText(dataPath)
              && Resolve(id, dataPath)[|PathText(dataPath)|] == '/'
              && Resolve(id, dataPath)[|PathText(dataPath)| + 1..] == id
  {
  }

  /** With an unset, empty or absolute data path every resolved location is
      absolute, so resolving it again, under any data path, changes nothing. */
  lemma ResolveIdempotent(id: string, dataPath: Option<string>, later: Option<string>)
    requires PathText(dataPath) == [] || IsAbsolute(PathText(dataPath))
    ensures IsAbsolute(Resolve(id, dataPath))
    ensures Resolve(Resolve(id, dataPath), later) == Resolve(id, dataPath)
  {
    if !IsAbsolute(id) {
      var p := PathText(dataPath);
      assert Resolve(id, dataPath)[0] == (if p == [] then '/' else p[0]);
    }
  }

  /** `data_path` (lib/data_reader.rb:14-19): the path set explicitly, else
      the host's default, else nil. `hostDefault` is None when the host does
      not define `default_data_path` or it returns nil. */
  function EffectiveDataPath(explicit: Option<string>, hostDefault: Option<string>): (r: Option<string>)
    ensures explicit.Some? ==> r == explicit
    ensures explicit.None? ==> r == hostDefault
    ensures r.None? <==> explicit.None? && hostDefault.None?
  {
    if explicit.Some? then explicit else hostDefault
  }
}
