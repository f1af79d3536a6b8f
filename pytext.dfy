/**
 * Python `str` operations the tilers apply to names and metadata text:
 * `find`, `strip`, `replace` of one character and `split` on whitespace.
 */
module PyText {

  /** `word` occurs in `text` at index `k`. */
  predicate WordAt(text: string, word: string, k: int)
  {
    0 <= k && k + |word| <= |text| && text[k..k + |word|] == word
  }

  /** `text.find(word) > -1`. */
  predicate Contains(text: string, word: string)
  {
    exists k :: 0 <= k <= |text| - |word| && WordAt(text, word, k)
  }

  /** Python's `str.isspace` for one character: the separators `str.split()` splits on. */
  predicate IsSpace(c: char)
  {
    var n := c as int;
    (9 <= n <= 13) || (28 <= n <= 32) || n == 0x85 || n == 0xA0 || n == 0x1680
    || (0x2000 <= n <= 0x200A) || n == 0x2028 || n == 0x2029 || n == 0x202F
    || n == 0x205F || n == 0x3000
  }

  /** The number of whitespace characters at the start of `s`. */
  function LeadingSpaces(s: string): (n: nat)
    ensures n <= |s|
    ensures forall k :: 0 <= k < n ==> IsSpace(s[k])
    ensures n < |s| ==> !IsSpace(s[n])
    decreases |s|
  {
    if s == [] || !IsSpace(s[0]) then 0 else 1 + LeadingSpaces(s[1..])
  }

  /** The number of whitespace characters at the end of `s`. */
  function TrailingSpaces(s: string): (n: nat)
    ensures n <= |s|
    ensures forall k :: |s| - n <= k < |s| ==> IsSpace(s[k])
    ensures n < |s| ==> !IsSpace(s[|s| - 1 - n])
    decreases |s|
  {
    if s == [] || !IsSpace(s[|s| - 1]) then 0 else 1 + TrailingSpaces(s[..|s| - 1])
  }

  /**
   * `s.strip()`: the part of `s` left when the whitespace at both ends is
   * removed. It neither starts nor ends with whitespace, and everything of
   * `s` outside it is whitespace.
   */
  function Strip(s: string): (r: string)
    ensures r == [] || (!IsSpace(r[0]) && !IsSpace(r[|r| - 1]))
    ensures LeadingSpaces(s) + |r| <= |s| && r == s[LeadingSpaces(s)..LeadingSpaces(s) + |r|]
    ensures forall k :: 0 <= k < |s| && !(LeadingSpaces(s) <= k < LeadingSpaces(s) + |r|) ==> IsSpace(s[k])
  {
    var i := LeadingSpaces(s);
    var t := s[i..];
    t[..|t| - TrailingSpaces(t)]
  }

  /**
   * Stripping a text that neither starts nor ends with whitespace, padded
   * with whitespace on both sides, gives back that text.
   */
  lemma StripPadded(before: string, word: string, after: string)
    requires forall k :: 0 <= k < |before| ==> IsSpace(before[k])
    requires forall k :: 0 <= k < |after| ==> IsSpace(after[k])
    requires word == [] || (!IsSpace(word[0]) && !IsSpace(word[|word| - 1]))
    ensures Strip(before + word + after) == word
  {
    var s := before + word + after;
    var r := Strip(s);
    var n := LeadingSpaces(s);
    if word == [] {
      // No character is left to start a non-empty result.
      assert forall k :: 0 <= k < |s| ==> IsSpace(s[k]) by {
        forall k | 0 <= k < |s| ensures IsSpace(s[k]) {
          if k < |before| { assert s[k] == before[k]; } else { assert s[k] == after[k - |before|]; }
        }
      }
    } else {
      assert s[|before|] == word[0];
      assert forall k :: 0 <= k < |before| ==> s[k] == before[k];
      assert n == |before|;
      var last := |before| + |word| - 1;
      assert s[last] == word[|word| - 1];
      assert n + |r| > last;
      assert s[|before|..|before| + |word|] == word;
    }
  }

  /** The length of the run of non-space characters at the start of `s`. */
  function WordLength(s: string): (n: nat)
    ensures n <= |s|
    ensures forall i :: 0 <= i < n ==> !IsSpace(s[i])
    ensures n < |s| ==> IsSpace(s[n])
    decreases |s|
  {
    if s == [] || IsSpace(s[0]) then 0 else 1 + WordLength(s[1..])
  }

  /** `s.split()`: the maximal runs of non-space characters, in order. */
  function Words(s: string): (r: seq<string>)
    decreases |s|
  {
    if s == [] then []
    else if IsSpace(s[0]) then Words(s[1..])
    else
      var n := WordLength(s);
      [s[..n]] + Words(s[n..])
  }

  /** `s.replace('"', '')`. */
  function WithoutQuotes(s: string): (r: string)
    ensures '"' !in r
    ensures |r| <= |s|
  {
    if s == [] then []
    else (if s[0] == '"' then [] else [s[0]]) + WithoutQuotes(s[1..])
  }

  /** Removing the quotes keeps every other character, as often as it occurs. */
  lemma {:induction false} WithoutQuotesKeepsOthers(s: string, c: char)
    requires c != '"'
    ensures multiset(WithoutQuotes(s))[c] == multiset(s)[c]
    decreases |s|
  {
    if s != [] {
      WithoutQuotesKeepsOthers(s[1..], c);
      assert s == [s[0]] + s[1..];
    }
  }

  /** The characters of `s` that are not spaces, in order. */
  function NonSpace(s: string): string
  {
    if s == [] then []
    else (if IsSpace(s[0]) then [] else [s[0]]) + NonSpace(s[1..])
  }

  /** The words one after the other. */
  function Concat(words: seq<string>): string
  {
    if words == [] then [] else words[0] + Concat(words[1..])
  }

  /** A word `split` can give: not empty, without spaces. */
  predicate IsWord(w: string)
  {
    w != [] && forall i :: 0 <= i < |w| ==> !IsSpace(w[i])
  }

  /**
   * `split` loses only the spaces: every word is non-empty and free of
   * spaces, and the words one after the other are the non-space
   * characters of the text, in order.
   */
  lemma {:induction false} WordsKeepTheText(s: string)
    ensures forall i :: 0 <= i < |Words(s)| ==> IsWord(Words(s)[i])
    ensures Concat(Words(s)) == NonSpace(s)
    decreases |s|
  {
    if s != [] {
      if IsSpace(s[0]) {
        WordsKeepTheText(s[1..]);
      } else {
        var n := WordLength(s);
        WordsKeepTheText(s[n..]);
        NonSpaceOfWord(s, n);
        assert Concat(Words(s)) == s[..n] + Concat(Words(s[n..]));
      }
    }
  }

  /** Splitting off a run of non-space characters keeps them all. */
  lemma {:induction false} NonSpaceOfWord(s: string, n: nat)
    requires n <= |s| && forall i :: 0 <= i < n ==> !IsSpace(s[i])
    ensures NonSpace(s) == s[..n] + NonSpace(s[n..])
    decreases n
  {
    if n > 0 {
      assert s[1..][n - 1..] == s[n..];
      NonSpaceOfWord(s[1..], n - 1);
      assert s[..n] == [s[0]] + s[1..][..n - 1];
    }
  }

  /** `" ".join(words)`. */
  function JoinWithSpace(words: seq<string>): string
  {
    if words == [] then []
    else if |words| == 1 then words[0]
    else words[0] + " " + JoinWithSpace(words[1..])
  }

  /** Words joined with single spaces split back into the same words. */
  lemma {:induction false} SplitJoinRoundTrip(words: seq<string>)
    requires forall i :: 0 <= i < |words| ==> IsWord(words[i])
    ensures Words(JoinWithSpace(words)) == words
    decreases |words|
  {
    if words != [] {
      var w := words[0];
      var rest := if |words| == 1 then [] else " " + JoinWithSpace(words[1..]);
      assert JoinWithSpace(words) == w + rest;
      WordThenRest(w, rest);
      if |words| > 1 {
        assert Words(rest) == Words(JoinWithSpace(words[1..])) by {
          assert rest[1..] == JoinWithSpace(words[1..]);
        }
        SplitJoinRoundTrip(words[1..]);
      }
    }
  }

  /** A word followed by nothing or by a space splits as that word and the rest. */
  lemma WordThenRest(w: string, rest: string)
    requires IsWord(w)
    requires rest == [] || IsSpace(rest[0])
    ensures Words(w + rest) == [w] + Words(rest)
  {
    WordLengthOfWord(w, rest);
    assert (w + rest)[..|w|] == w;
    assert (w + rest)[|w|..] == rest;
  }

  /** The first run of a word followed by a space or nothing is the word. */
  lemma {:induction false} WordLengthOfWord(w: string, rest: string)
    requires forall i :: 0 <= i < |w| ==> !IsSpace(w[i])
    requires rest == [] || IsSpace(rest[0])
    ensures WordLength(w + rest) == |w|
    decreases |w|
  {
    if w != [] {
      assert (w + rest)[1..] == w[1..] + rest;
      WordLengthOfWord(w[1..], rest);
    } else {
      assert w + rest == rest;
    }
  }

}
