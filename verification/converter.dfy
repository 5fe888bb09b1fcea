/**
  The composed conversion: strip surrounding whitespace, decode the
  string into a stream of values, then group the stream into package sums.
 */
module Converter {
  import opened Decoder
  import opened Packager

  /** The ASCII characters Python's `str.strip` removes, listed one by one. */
  const AsciiWhitespace: string := "\t\n\U{000B}\U{000C}\r\U{001C}\U{001D}\U{001E}\U{001F} "

  /**
    ASCII whitespace as Python's `str.strip` sees it: tab..carriage return,
    0x1C..0x1F and space.  None of it is a letter or `_`, so the decoder
    skips it.
   */
  predicate IsSpace(c: char)
  {
    9 <= c as int <= 13 || 28 <= c as int <= 32
  }

  /**
    The two code-point ranges of `IsSpace` are exactly the listed
    characters, and none of them is a letter or `_`, so the decoder skips
    them.
   */
  lemma SpaceCharacters(c: char)
    ensures IsSpace(c) <==> c in AsciiWhitespace
    ensures IsSpace(c) ==> IsInvalid(c)
  {
  }

  /** `s` without its leading whitespace. */
  function TrimStart(s: string): (r: string)
    ensures |r| <= |s| && r == s[|s| - |r|..]
    ensures forall k :: 0 <= k < |s| - |r| ==> IsSpace(s[k])
    ensures r == [] || !IsSpace(r[0])
  {
    if s != [] && IsSpace(s[0]) then TrimStart(s[1..]) else s
  }

  /** `s` without its trailing whitespace. */
  function TrimEnd(s: string): (r: string)
    ensures |r| <= |s| && r == s[..|r|]
    ensures forall k :: |r| <= k < |s| ==> IsSpace(s[k])
    ensures r == [] || !IsSpace(r[|r| - 1])
  {
    if s != [] && IsSpace(s[|s| - 1]) then TrimEnd(s[..|s| - 1]) else s
  }

  /**
    `r` is the part of `s` that starts at `lo`, and every character of `s`
    before it or after it is whitespace.
   */
  predicate TrimmedAt(s: string, r: string, lo: int)
  {
    0 <= lo <= |s| - |r| && r == s[lo..lo + |r|]
    && (forall k :: 0 <= k < lo ==> IsSpace(s[k]))
    && (forall k :: lo + |r| <= k < |s| ==> IsSpace(s[k]))
  }

  /**
    `str.strip()` restricted to ASCII whitespace: the result is the
    contiguous middle of `s` left once every whitespace character at
    either end is removed, and neither of its ends is whitespace.
   */
  function Strip(s: string): (r: string)
    ensures |r| <= |s|
    ensures exists lo :: TrimmedAt(s, r, lo)
    ensures r == [] || (!IsSpace(r[0]) && !IsSpace(r[|r| - 1]))
  {
    TrimBoth(s);
    TrimEnd(TrimStart(s))
  }

  /** Trimming the start and then the end leaves the middle of `s` at the offset `TrimStart` stops at. */
  lemma TrimBoth(s: string)
    ensures TrimmedAt(s, TrimEnd(TrimStart(s)), |s| - |TrimStart(s)|)
    ensures TrimEnd(TrimStart(s)) == [] || !IsSpace(TrimEnd(TrimStart(s))[0])
  {
    var t := TrimStart(s);
    var r := TrimEnd(t);
    TrimmedInside(s, t, r);
    assert r != [] ==> r[0] == t[0];
  }

  /** A whitespace-only end cut off a part that has whitespace-only starts cut off. */
  lemma TrimmedInside(s: string, t: string, r: string)
    requires |t| <= |s| && t == s[|s| - |t|..]
    requires forall k :: 0 <= k < |s| - |t| ==> IsSpace(s[k])
    requires |r| <= |t| && r == t[..|r|]
    requires forall k :: |r| <= k < |t| ==> IsSpace(t[k])
    ensures TrimmedAt(s, r, |s| - |t|)
  {
    var lo := |s| - |t|;
    assert r == s[lo..lo + |r|];
    forall k | lo + |r| <= k < |s|
      ensures IsSpace(s[k])
    {
      assert s[k] == t[k - lo];
    }
  }

  /**
    `Strip` is the only such trim: any part of `s` that is surrounded by
    whitespace only and neither starts nor ends with whitespace is `Strip(s)`.
   */
  lemma StripUnique(s: string, r: string, lo: int)
    requires TrimmedAt(s, r, lo)
    requires r == [] || (!IsSpace(r[0]) && !IsSpace(r[|r| - 1]))
    ensures r == Strip(s)
  {
    var t := Strip(s);
    var lo' :| TrimmedAt(s, t, lo');
    if r != [] {
      assert r[0] == s[lo] && r[|r| - 1] == s[lo + |r| - 1];
      assert t != [] && t[0] == s[lo'] && t[|t| - 1] == s[lo' + |t| - 1];
      assert lo == lo';
      assert lo + |r| == lo' + |t|;
    }
  }

  lemma {:induction false} DecodeIgnoresLeadingSpace(s: string)
    ensures Decode(TrimStart(s)) == Decode(s)
  {
    if s != [] && IsSpace(s[0]) {
      SpaceCharacters(s[0]);
      assert s == [] + [s[0]] + s[1..];
      DecodeSplitsAtInvalid([], s[0], s[1..]);
      DecodeIgnoresLeadingSpace(s[1..]);
    }
  }

  lemma {:induction false} DecodeIgnoresTrailingSpace(s: string)
    ensures Decode(TrimEnd(s)) == Decode(s)
  {
    if s != [] && IsSpace(s[|s| - 1]) {
      var init := s[..|s| - 1];
      SpaceCharacters(s[|s| - 1]);
      assert s == init + [s[|s| - 1]] + [];
      DecodeSplitsAtInvalid(init, s[|s| - 1], []);
      assert Decode(init) + [] == Decode(init);
      DecodeIgnoresTrailingSpace(init);
    }
  }

  /**
    Stripping never changes the decoded stream: leading whitespace is
    skipped, and trailing whitespace is either skipped or swallowed by a
    final `z`, which yields 26 either way.
   */
  lemma StripKeepsDecode(s: string)
    ensures Decode(Strip(s)) == Decode(s)
  {
    DecodeIgnoresLeadingSpace(s);
    DecodeIgnoresTrailingSpace(TrimStart(s));
  }

  /**
    The package sums of an input string.  There are no more sums than
    characters, and since every decoded value is in 0..52, a package has
    at most 52 members of at most 52 each.
   */
  function Convert(s: string): (r: seq<int>)
    ensures |r| <= |s|
    ensures forall k :: 0 <= k < |r| ==> 0 <= r[k] <= 52 * 52
  {
    var numbers := Decode(Strip(s));
    assert CountsOk(numbers, 0) && AllWithin(Packages(numbers), 0, 52 * 52) by {
      NonNegativeCountsOk(numbers, 0);
      PackagesBounded(numbers, 0, 52);
    }
    Packages(numbers)
  }

  /** The result is the same whether or not the input is stripped first. */
  lemma ConvertIgnoresStrip(s: string)
    ensures CountsOk(Decode(s), 0) && Convert(s) == Packages(Decode(s))
  {
    StripKeepsDecode(s);
    NonNegativeCountsOk(Decode(s), 0);
  }

  /**
    `convert_measurement_string`: strip, decode, package.  Its `mode`
    argument is unused in converter.py and is not modelled.
   */
  method ConvertMeasurementString(input: string) returns (packages: seq<int>)
    ensures packages == Convert(input)
    ensures |packages| <= |input|
  {
    var stripped := Strip(input);
    var numbers := CustomCharToNumber(stripped);
    NonNegativeCountsOk(numbers, 0);
    packages := ParsePackages(numbers);
  }

  /** The documented input has no surrounding whitespace. */
  lemma StripDocInput()
    ensures Strip("dz_a_aazzaaa") == "dz_a_aazzaaa"
  {
    var lit := "dz_a_aazzaaa";
    assert TrimStart(lit) == lit;
    assert TrimEnd(lit) == lit;
  }

  /**
    The documented example run through the whole pipeline as the code
    computes it: `[28, 52, 1, 0]`, not the documented `[28, 53, 1]`.
   */
  lemma ConvertDocExample()
    ensures Convert("dz_a_aazzaaa") == [28, 52, 1, 0]
    ensures Convert("dz_a_aazzaaa") != [28, 53, 1]
  {
    var v := [4, 26, 1, 0, 1, 1, 52, 1, 1, 1];
    assert Decode(Strip("dz_a_aazzaaa")) == v by {
      StripDocInput();
      DecodeDocExample();
    }
    assert CountsOk(v, 0) && Packages(v) == [28, 52, 1, 0] by {
      PackagesDocStream();
    }
  }
}
