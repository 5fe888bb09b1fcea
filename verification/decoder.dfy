/**
  The character-stream decoder of the measurement converter.

  A cursor scans the input left to right and emits one integer per
  recognised token: a letter gives its 1-based position in the alphabet,
  `_` gives 0, and a `z` that has a follower is combined with it into one
  value between 26 and 52.  Every other character is skipped.
  Classification is case-insensitive (ASCII only).
 */
module Decoder {
  import opened Sequences

  /**
    ASCII lower-casing: an upper-case letter maps to the lower-case letter
    at the same alphabet position, everything else is unchanged, and the
    result is never an upper-case letter.
   */
  function Lower(c: char): (l: char)
    ensures 'A' <= c <= 'Z' ==> 'a' <= l <= 'z' && l as int - 'a' as int == c as int - 'A' as int
    ensures !('A' <= c <= 'Z') ==> l == c
    ensures !('A' <= l <= 'Z')
  {
    if 'A' <= c <= 'Z' then (c as int - 'A' as int + 'a' as int) as char else c
  }

  /** The lower-cased form of every character of `s`. */
  function LowerAll(s: string): (r: string)
    ensures |r| == |s|
    ensures forall k :: 0 <= k < |s| ==> r[k] == Lower(s[k])
  {
    seq(|s|, k requires 0 <= k < |s| => Lower(s[k]))
  }

  /** A letter of either case. */
  predicate IsLetter(c: char)
  {
    'a' <= Lower(c) <= 'z'
  }

  /** A character the decoder skips: neither a letter nor the separator `_`. */
  predicate IsInvalid(c: char)
  {
    Lower(c) != '_' && !IsLetter(c)
  }

  /** The 1-based alphabet position of a letter, case-insensitively. */
  function LetterValue(c: char): (v: int)
    requires IsLetter(c)
    ensures 1 <= v <= 26
  {
    Lower(c) as int - 'a' as int + 1
  }

  /** The value of a `z` combined with the character that follows it. */
  function ComboValue(next: char): (v: int)
    ensures 26 <= v <= 52
    ensures IsLetter(next) ==> v == 26 + LetterValue(next)
    ensures !IsLetter(next) ==> v == 26
  {
    if Lower(next) == '_' then 26 + 0
    else if IsLetter(next) then 26 + LetterValue(next)
    else 26
  }

  /**
    The decoded stream of `s`: the reference definition of the scan, one
    step of the cursor per recursive call.  Every value is in 0..52 and
    no character yields more than one value.
   */
  function Decode(s: string): (r: seq<int>)
    ensures |r| <= |s|
    ensures forall k :: 0 <= k < |r| ==> 0 <= r[k] <= 52
  {
    if s == [] then []
    else if Lower(s[0]) == '_' then [0] + Decode(s[1..])
    else if Lower(s[0]) == 'z' && 1 < |s| then [ComboValue(s[1])] + Decode(s[2..])
    else if IsLetter(s[0]) then [LetterValue(s[0])] + Decode(s[1..])
    else Decode(s[1..])
  }

  /** One step of the scan at cursor `i`, as the loop takes it. */
  lemma DecodeStep(s: string, i: nat)
    requires i < |s|
    ensures Lower(s[i]) == '_' ==> Decode(s[i..]) == [0] + Decode(s[i + 1..])
    ensures Lower(s[i]) == 'z' && i + 1 < |s| ==> Decode(s[i..]) == [ComboValue(s[i + 1])] + Decode(s[i + 2..])
    ensures (Lower(s[i]) != 'z' || i + 1 == |s|) && IsLetter(s[i]) ==> Decode(s[i..]) == [LetterValue(s[i])] + Decode(s[i + 1..])
    ensures IsInvalid(s[i]) ==> Decode(s[i..]) == Decode(s[i + 1..])
  {
    var t := s[i..];
    assert t[0] == s[i] && t[1..] == s[i + 1..];
    if i + 1 < |s| {
      assert t[1] == s[i + 1] && t[2..] == s[i + 2..];
    }
  }

  /**
    The stream the scan emits from cursor position `i` on: the cursor
    moves by 2 over a `z` combination and by 1 otherwise.  `Decode` is
    the same scan stated on the remaining string and `ScanMatchesDecode`
    proves the two agree; this form lets the verifier evaluate a long
    literal input one cursor step at a time.
   */
  function DecodeFrom(s: string, i: nat): seq<int>
    decreases |s| - i
  {
    if i >= |s| then []
    else if Lower(s[i]) == '_' then [0] + DecodeFrom(s, i + 1)
    else if Lower(s[i]) == 'z' && i + 1 < |s| then [ComboValue(s[i + 1])] + DecodeFrom(s, i + 2)
    else if IsLetter(s[i]) then [LetterValue(s[i])] + DecodeFrom(s, i + 1)
    else DecodeFrom(s, i + 1)
  }

  /** The cursor view and the remaining-string view of the scan coincide. */
  lemma {:induction false} ScanMatchesDecode(s: string, i: nat)
    requires i <= |s|
    ensures DecodeFrom(s, i) == Decode(s[i..])
    decreases |s| - i
  {
    if i < |s| {
      DecodeStep(s, i);
      ScanMatchesDecode(s, i + 1);
      if i + 1 < |s| {
        ScanMatchesDecode(s, i + 2);
      }
    } else {
      assert s[i..] == [];
    }
  }

  /**
    The loop of `custom_char_to_number`: the cursor `i` advances by 2 over
    a `z` combination and by 1 otherwise, appending to `result` in place.
   */
  method CustomCharToNumber(input: string) returns (result: seq<int>)
    ensures result == Decode(input)
  {
    result := [];
    var i := 0;
    assert input[0..] == input;
    while i < |input|
      invariant 0 <= i <= |input|
      invariant result + Decode(input[i..]) == Decode(input)
    {
      ghost var before := result;
      DecodeStep(input, i);
      var ch := Lower(input[i]);
      if ch == '_' {
        result := result + [0];
        AppendAssoc(before, [0], Decode(input[i + 1..]));
        i := i + 1;
      } else if ch == 'z' && i + 1 < |input| {
        var next := Lower(input[i + 1]);
        if next == '_' {
          result := result + [26 + 0];
        } else if 'a' <= next <= 'z' {
          result := result + [26 + (next as int - 'a' as int + 1)];
        } else {
          result := result + [26];
        }
        assert result == before + [ComboValue(input[i + 1])];
        AppendAssoc(before, [ComboValue(input[i + 1])], Decode(input[i + 2..]));
        i := i + 2;
      } else if 'a' <= ch <= 'z' {
        result := result + [ch as int - 'a' as int + 1];
        AppendAssoc(before, [LetterValue(input[i])], Decode(input[i + 1..]));
        i := i + 1;
      } else {
        i := i + 1;
      }
    }
    assert input[i..] == [];
  }

  /**
    Reports whether the scan of `s` ends on a lone `z` in its last
    position: then the `z` would combine with whatever is appended to `s`.
   */
  predicate PendingZ(s: string)
  {
    if s == [] then false
    else if Lower(s[0]) == 'z' && 1 < |s| then PendingZ(s[2..])
    else if Lower(s[0]) == 'z' then true
    else PendingZ(s[1..])
  }

  /**
    An invalid character splits the input: what comes before it and what
    comes after it decode independently.  Before a pending `z` the
    character is swallowed as the `z`'s follower, and `z` followed by an
    invalid character yields 26, the same as a trailing lone `z`.
   */
  lemma {:induction false} DecodeSplitsAtInvalid(p: string, c: char, q: string)
    requires IsInvalid(c)
    ensures Decode(p + [c] + q) == Decode(p) + Decode(q)
  {
    var s := p + [c] + q;
    if p == [] {
      assert s[1..] == q;
    } else if Lower(p[0]) == 'z' && 1 < |p| {
      assert s[1] == p[1] && s[2..] == p[2..] + [c] + q;
      DecodeSplitsAtInvalid(p[2..], c, q);
      AppendAssoc([ComboValue(p[1])], Decode(p[2..]), Decode(q));
    } else if Lower(p[0]) == 'z' {
      assert p == [p[0]] && s[1] == c && s[2..] == q;
    } else {
      assert s[1..] == p[1..] + [c] + q;
      DecodeSplitsAtInvalid(p[1..], c, q);
      if Lower(p[0]) == '_' {
        AppendAssoc([0], Decode(p[1..]), Decode(q));
      } else if IsLetter(p[0]) {
        AppendAssoc([LetterValue(p[0])], Decode(p[1..]), Decode(q));
      }
    }
  }

  /** Decoding is a homomorphism at any point where the scan is not waiting on a `z`. */
  lemma {:induction false} DecodeAppend(p: string, q: string)
    requires !PendingZ(p)
    ensures Decode(p + q) == Decode(p) + Decode(q)
  {
    var s := p + q;
    if p == [] {
      assert s == q;
    } else if Lower(p[0]) == 'z' && 1 < |p| {
      assert s[1] == p[1] && s[2..] == p[2..] + q;
      DecodeAppend(p[2..], q);
    } else {
      assert Lower(p[0]) != 'z';
      assert s[1..] == p[1..] + q;
      DecodeAppend(p[1..], q);
    }
  }

  /**
    Removing an invalid character that the scan reaches on its own (that
    is not the follower of a `z`) leaves the decoded stream unchanged.
   */
  lemma DecodeDropsInvalid(p: string, c: char, q: string)
    requires IsInvalid(c) && !PendingZ(p)
    ensures Decode(p + [c] + q) == Decode(p + q)
  {
    DecodeSplitsAtInvalid(p, c, q);
    DecodeAppend(p, q);
  }

  /** A string made only of invalid characters decodes to the empty stream. */
  lemma {:induction false} DecodeAllInvalid(s: string)
    requires forall k :: 0 <= k < |s| ==> IsInvalid(s[k])
    ensures Decode(s) == []
  {
    if s != [] {
      DecodeAllInvalid(s[1..]);
    }
  }

  /** Classification looks only at the lower-cased form of each character. */
  lemma {:induction false} DecodeCaseInsensitive(s: string)
    ensures Decode(LowerAll(s)) == Decode(s)
  {
    var t := LowerAll(s);
    if s != [] {
      assert Lower(t[0]) == Lower(s[0]);
      assert t[1..] == LowerAll(s[1..]);
      DecodeCaseInsensitive(s[1..]);
      if 1 < |s| {
        assert Lower(t[1]) == Lower(s[1]);
        assert t[2..] == LowerAll(s[2..]);
        DecodeCaseInsensitive(s[2..]);
      }
    }
  }

  /**
    A string of letters in which no `z` has a follower decodes letter by
    letter: one value per character, each its alphabet position.
   */
  lemma {:induction false} DecodePlainLetters(s: string)
    requires forall k :: 0 <= k < |s| ==> IsLetter(s[k])
    requires forall k :: 0 <= k < |s| - 1 ==> Lower(s[k]) != 'z'
    ensures |Decode(s)| == |s|
    ensures forall k :: 0 <= k < |s| ==> Decode(s)[k] == LetterValue(s[k])
  {
    if s != [] {
      DecodePlainLetters(s[1..]);
      assert Decode(s) == [LetterValue(s[0])] + Decode(s[1..]);
    }
  }

  /**
    A reference encoder, the inverse of the decoder on streams of values
    in 0..52: 0 is `_`, 1..25 a letter, 26 is `z_` and 27..52 a `z`
    followed by a letter.
   */
  function EncodeValue(v: int): (t: string)
    requires 0 <= v <= 52
    ensures 1 <= |t| <= 2
  {
    if v == 0 then "_"
    else if v < 26 then [('a' as int + v - 1) as char]
    else if v == 26 then "z_"
    else ['z', ('a' as int + v - 27) as char]
  }

  function Encode(vs: seq<int>): (s: string)
    requires forall k :: 0 <= k < |vs| ==> 0 <= vs[k] <= 52
    ensures |vs| <= |s| <= 2 * |vs|
  {
    if vs == [] then [] else EncodeValue(vs[0]) + Encode(vs[1..])
  }

  /** One encoded value followed by anything decodes to that value first. */
  lemma DecodeEncodeValue(v: int, rest: string)
    requires 0 <= v <= 52
    ensures Decode(EncodeValue(v) + rest) == [v] + Decode(rest)
  {
    var s := EncodeValue(v) + rest;
    if |EncodeValue(v)| == 1 {
      assert s[0] == EncodeValue(v)[0] && s[1..] == rest;
    } else {
      assert s[0] == 'z' && s[1] == EncodeValue(v)[1] && s[2..] == rest;
    }
  }

  /** Round trip: every stream of values in 0..52 is the decoding of its encoding. */
  lemma {:induction false} DecodeEncode(vs: seq<int>)
    requires forall k :: 0 <= k < |vs| ==> 0 <= vs[k] <= 52
    ensures Decode(Encode(vs)) == vs
  {
    if vs != [] {
      DecodeEncodeValue(vs[0], Encode(vs[1..]));
      DecodeEncode(vs[1..]);
    }
  }

  /** The empty input, the separator, the hyphen and the `z` rules on small inputs. */
  lemma DecodeExamples()
    ensures Decode("") == []
    ensures Decode("_") == [0]
    ensures Decode("-") == []
    ensures Decode("z") == [26]
    ensures Decode("zz") == [52]
    ensures Decode("zzz") == [52, 26]
    ensures Decode("z1") == [26]
    ensures Decode("z1a") == [26, 1] && Decode("za") == [27]
    ensures Decode("Ab") == [1, 2]
  {
  }

  /** The cursor scan of the documented input, step by step. */
  lemma ScanDocInput()
    ensures DecodeFrom("dz_a_aazzaaa", 0) == [4, 26, 1, 0, 1, 1, 52, 1, 1, 1]
  {
    var s := "dz_a_aazzaaa";
    assert DecodeFrom(s, 7) == [52, 1, 1, 1];
  }

  /**
    The worked example of the decoder's documentation, as the code
    computes it: `zz` is 52 and three `a`s follow, so the documented
    stream `[4, 26, 1, 0, 1, 1, 53, 1, 1]` is not what the scan yields.
   */
  lemma DecodeDocExample()
    ensures Decode("dz_a_aazzaaa") == [4, 26, 1, 0, 1, 1, 52, 1, 1, 1]
    ensures Decode("dz_a_aazzaaa") != [4, 26, 1, 0, 1, 1, 53, 1, 1]
  {
    ScanDocInput();
    ScanMatchesDecode("dz_a_aazzaaa", 0);
    assert "dz_a_aazzaaa"[0..] == "dz_a_aazzaaa";
  }
}
