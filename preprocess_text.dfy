/**
 * The word-level filters of the text pipeline: abbreviation replacement,
 * punctuation removal, stopword removal and whitespace tokenisation, with
 * Python's `str.lower`, `str.split` and `" ".join` written out.
 */
module PreprocessText {

  // Characters

  /** `str.lower` on one character, for the ASCII letters. */
  function LowerChar(c: char): char
  {
    if 'A' <= c <= 'Z' then (c as int + 32) as char else c
  }

  /**
   * `str.lower`, character by character: each upper-case ASCII letter
   * becomes its lower-case letter, 32 code points up, every other
   * character is kept, and no upper-case ASCII letter is left.
   */
  function Lower(s: string): (r: string)
    ensures |r| == |s|
    ensures forall i :: 0 <= i < |s| && 'A' <= s[i] <= 'Z' ==>
      'a' <= r[i] <= 'z' && r[i] as int == s[i] as int + 32
    ensures forall i :: 0 <= i < |s| && !('A' <= s[i] <= 'Z') ==> r[i] == s[i]
    ensures forall i :: 0 <= i < |r| ==> !('A' <= r[i] <= 'Z')
  {
    seq(|s|, i requires 0 <= i < |s| => LowerChar(s[i]))
  }

  /** Lower-casing twice is lower-casing once. */
  lemma LowerIdempotent(s: string)
    ensures Lower(Lower(s)) == Lower(s)
  {
    var r := Lower(s);
    assert forall i :: 0 <= i < |r| ==> Lower(r)[i] == r[i];
  }

  /** The characters `str.isspace` accepts, which is what `str.split()` splits on. */
  predicate IsSpace(c: char)
  {
    var n := c as int;
    || (0x09 <= n <= 0x0D) || (0x1C <= n <= 0x20) || n == 0x85 || n == 0xA0
    || n == 0x1680 || (0x2000 <= n <= 0x200A) || n == 0x2028 || n == 0x2029
    || n == 0x202F || n == 0x205F || n == 0x3000
  }

  /** `string.punctuation`: the 32 ASCII punctuation characters. */
  const Punctuation: string := "!\"#$%&'()*+,-./:;<=>?@[\\]^_`{|}~"

  /** A token as `str.split()` produces it: not empty, no whitespace. */
  predicate IsWord(w: string)
  {
    w != [] && forall i :: 0 <= i < |w| ==> !IsSpace(w[i])
  }

  // tokenize_split: str.split()

  /** The characters of `s` up to its first whitespace. */
  function LeadingWord(s: string): (w: string)
    ensures |w| <= |s| && w == s[..|w|]
    ensures forall i :: 0 <= i < |w| ==> !IsSpace(w[i])
    ensures |w| < |s| ==> IsSpace(s[|w|])
  {
    if s == [] || IsSpace(s[0]) then [] else [s[0]] + LeadingWord(s[1..])
  }

  /**
   * tokenize_split, which is `str.split()`: the maximal runs of
   * non-whitespace characters, in order.
   */
  function TokenizeSplit(text: string): (r: seq<string>)
    ensures forall i :: 0 <= i < |r| ==> IsWord(r[i])
    decreases |text|
  {
    if text == [] then []
    else if IsSpace(text[0]) then TokenizeSplit(text[1..])
    else
      var w := LeadingWord(text);
      [w] + TokenizeSplit(text[|w|..])
  }

  /** `" ".join(words)` */
  function Join(words: seq<string>): string
  {
    if |words| == 0 then ""
    else if |words| == 1 then words[0]
    else words[0] + " " + Join(words[1..])
  }

  /** The leading word of a word followed by a space, or by nothing, is that word. */
  lemma {:induction false} LeadingWordOf(w: string, rest: string)
    requires forall i :: 0 <= i < |w| ==> !IsSpace(w[i])
    requires rest == [] || IsSpace(rest[0])
    ensures LeadingWord(w + rest) == w
    decreases |w|
  {
    if w != [] {
      LeadingWordOf(w[1..], rest);
      assert (w + rest)[1..] == w[1..] + rest;
    }
  }

  /** Splitting what `" ".join` built gives back the words, when they are words. */
  lemma {:induction false} SplitJoin(words: seq<string>)
    requires forall i :: 0 <= i < |words| ==> IsWord(words[i])
    ensures TokenizeSplit(Join(words)) == words
    decreases |words|
  {
    if |words| == 1 {
      var w := words[0];
      LeadingWordOf(w, []);
      assert w + [] == w;
      assert w[|w|..] == [];
    } else if |words| > 1 {
      var w := words[0];
      var rest := " " + Join(words[1..]);
      var text := Join(words);
      assert text == w + rest;
      LeadingWordOf(w, rest);
      assert text[|w|..] == rest;
      assert rest[1..] == Join(words[1..]);
      SplitJoin(words[1..]);
      assert words == [w] + words[1..];
    }
  }

  /** A word splits into itself. */
  lemma SplitWord(w: string)
    requires IsWord(w)
    ensures TokenizeSplit(w) == [w]
  {
    SplitJoin([w]);
  }

  /** Text made of whitespace only splits into nothing. */
  lemma {:induction false} SplitBlank(text: string)
    requires forall i :: 0 <= i < |text| ==> IsSpace(text[i])
    ensures TokenizeSplit(text) == []
    decreases |text|
  {
    if text != [] {
      SplitBlank(text[1..]);
    }
  }

  /** A leading word that stops before the end of `a` is not extended by what follows `a`. */
  lemma {:induction false} LeadingWordAppend(a: string, rest: string)
    requires rest != [] && IsSpace(rest[0])
    ensures LeadingWord(a + rest) == LeadingWord(a)
    decreases |a|
  {
    if a != [] {
      assert (a + rest)[0] == a[0] && (a + rest)[1..] == a[1..] + rest;
      if !IsSpace(a[0]) {
        LeadingWordAppend(a[1..], rest);
      }
    }
  }

  /**
   * Splitting at a whitespace character: the tokens of `a + [c] + b` are
   * those of `a` followed by those of `b`. With SplitWord and SplitBlank
   * this fixes the result on every text: every maximal run of
   * non-whitespace characters is one token, in order.
   */
  lemma {:induction false} SplitAtSpace(a: string, c: char, b: string)
    requires IsSpace(c)
    ensures TokenizeSplit(a + [c] + b) == TokenizeSplit(a) + TokenizeSplit(b)
    decreases |a|
  {
    var text := a + [c] + b;
    if a == [] {
      assert text == [c] + b && text[1..] == b;
    } else if IsSpace(a[0]) {
      assert text[0] == a[0] && text[1..] == a[1..] + [c] + b;
      SplitAtSpace(a[1..], c, b);
    } else {
      var rest := [c] + b;
      assert text == a + rest;
      LeadingWordAppend(a, rest);
      var w := LeadingWord(a);
      assert text[0] == a[0];
      assert TokenizeSplit(text) == [w] + TokenizeSplit(text[|w|..]);
      assert text[|w|..] == a[|w|..] + [c] + b;
      SplitAtSpace(a[|w|..], c, b);
    }
  }

  /** Splitting, joining and splitting again changes nothing. */
  lemma SplitJoinSplit(text: string)
    ensures TokenizeSplit(Join(TokenizeSplit(text))) == TokenizeSplit(text)
  {
    SplitJoin(TokenizeSplit(text));
  }

  // replace_abbreviations_list and replace_abbreviations_str

  /** One word, replaced when its lower-case form is a key. */
  function ReplaceWord(word: string, replacements: map<string, string>): string
  {
    if Lower(word) in replacements then replacements[Lower(word)] else word
  }

  /** replace_abbreviations_list: every word replaced in place. */
  function ReplaceAbbreviationsList(text: seq<string>, replacements: map<string, string>): (r: seq<string>)
    ensures |r| == |text|
    ensures forall i :: 0 <= i < |text| && Lower(text[i]) !in replacements ==> r[i] == text[i]
    ensures forall i :: 0 <= i < |text| && Lower(text[i]) in replacements ==> r[i] == replacements[Lower(text[i])]
  {
    seq(|text|, i requires 0 <= i < |text| => ReplaceWord(text[i], replacements))
  }

  /** replace_abbreviations_str: the same replacement on the split text, joined by single spaces. */
  function ReplaceAbbreviationsStr(text: string, replacements: map<string, string>): string
  {
    Join(ReplaceAbbreviationsList(TokenizeSplit(text), replacements))
  }

  /** With no replacements the list is unchanged. */
  lemma ReplaceNothing(text: seq<string>)
    ensures ReplaceAbbreviationsList(text, map[]) == text
  {
  }

  /**
   * When every replacement is a single word, the string version produces
   * exactly the words of the list version applied to `text.split()`.
   */
  lemma ReplaceStrWords(text: string, replacements: map<string, string>)
    requires forall k :: k in replacements ==> IsWord(replacements[k])
    ensures TokenizeSplit(ReplaceAbbreviationsStr(text, replacements))
         == ReplaceAbbreviationsList(TokenizeSplit(text), replacements)
  {
    var words := ReplaceAbbreviationsList(TokenizeSplit(text), replacements);
    SplitJoin(words);
  }

  // remove_punctuations

  /** remove_punctuations: `str.translate` with every punctuation character deleted. */
  function RemovePunctuations(text: string): (r: string)
    ensures |r| <= |text|
    ensures forall i :: 0 <= i < |r| ==> r[i] !in Punctuation
  {
    if text == [] then []
    else (if text[0] in Punctuation then [] else [text[0]]) + RemovePunctuations(text[1..])
  }

  /** Removal works piecewise: on a concatenation it is the concatenation of the removals. */
  lemma {:induction false} RemovePunctuationsAppend(a: string, b: string)
    ensures RemovePunctuations(a + b) == RemovePunctuations(a) + RemovePunctuations(b)
    decreases |a|
  {
    if a != [] {
      var head := if a[0] in Punctuation then [] else [a[0]];
      var ab := a + b;
      assert ab[0] == a[0] && ab[1..] == a[1..] + b;
      assert RemovePunctuations(ab) == head + RemovePunctuations(a[1..] + b);
      RemovePunctuationsAppend(a[1..], b);
    } else {
      assert a + b == b;
    }
  }

  /** Every other character is kept, as often as it occurs. */
  lemma {:induction false} RemovePunctuationsKeeps(text: string, c: char)
    requires c !in Punctuation
    ensures multiset(RemovePunctuations(text))[c] == multiset(text)[c]
    decreases |text|
  {
    if text != [] {
      var head := if text[0] in Punctuation then [] else [text[0]];
      assert RemovePunctuations(text) == head + RemovePunctuations(text[1..]);
      RemovePunctuationsKeeps(text[1..], c);
      assert text == [text[0]] + text[1..];
    }
  }

  /** Removing punctuation twice is removing it once. */
  lemma {:induction false} RemovePunctuationsIdempotent(text: string)
    ensures RemovePunctuations(RemovePunctuations(text)) == RemovePunctuations(text)
    decreases |text|
  {
    if text != [] {
      var r := RemovePunctuations(text[1..]);
      RemovePunctuationsIdempotent(text[1..]);
      var head := if text[0] in Punctuation then [] else [text[0]];
      RemovePunctuationsAppend(head, r);
    }
  }

  // remove_stopwords

  /** The stopword set remove_stopwords uses: the given list and "amp". */
  function StopSet(stopwords: set<string>): set<string>
  {
    stopwords + {"amp"}
  }

  /** remove_stopwords: the words whose lower-case form is not a stopword, in order. */
  function RemoveStopwords(words: seq<string>, stopwords: set<string>): (r: seq<string>)
    ensures |r| <= |words|
    ensures forall w :: w in r <==> w in words && Lower(w) !in StopSet(stopwords)
  {
    if words == [] then []
    else
      (if Lower(words[0]) in StopSet(stopwords) then [] else [words[0]])
      + RemoveStopwords(words[1..], stopwords)
  }

  /** Removal works piecewise: on a concatenation it is the concatenation of the removals. */
  lemma {:induction false} RemoveStopwordsAppend(a: seq<string>, b: seq<string>, stopwords: set<string>)
    ensures RemoveStopwords(a + b, stopwords) == RemoveStopwords(a, stopwords) + RemoveStopwords(b, stopwords)
    decreases |a|
  {
    if a != [] {
      var head := if Lower(a[0]) in StopSet(stopwords) then [] else [a[0]];
      var ab := a + b;
      assert ab[0] == a[0] && ab[1..] == a[1..] + b;
      assert RemoveStopwords(ab, stopwords) == head + RemoveStopwords(a[1..] + b, stopwords);
      RemoveStopwordsAppend(a[1..], b, stopwords);
    } else {
      assert a + b == b;
    }
  }

  /** Removing stopwords twice is removing them once. */
  lemma {:induction false} RemoveStopwordsIdempotent(words: seq<string>, stopwords: set<string>)
    ensures RemoveStopwords(RemoveStopwords(words, stopwords), stopwords) == RemoveStopwords(words, stopwords)
    decreases |words|
  {
    if words != [] {
      RemoveStopwordsIdempotent(words[1..], stopwords);
      var head := if Lower(words[0]) in StopSet(stopwords) then [] else [words[0]];
      RemoveStopwordsAppend(head, RemoveStopwords(words[1..], stopwords), stopwords);
    }
  }
}
