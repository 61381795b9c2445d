/** The word list (`WORDS`) as `loadDictionary` builds it (script.js, lines 16-31): every
    downloaded line trimmed and upper-cased, keeping the five-letter ones; a fixed list of
    five words when the download throws. */
module Dictionary {
  import opened Wrappers
  import opened Config

  /** The characters JavaScript's `String.prototype.trim` removes: the white space
      characters (tab, vertical tab, form feed, space, no-break space, byte order mark and
      the Unicode space separators) and the line terminators. */
  const WHITE_SPACE: set<char> := {
    '\t', '\n', '\U{000B}', '\U{000C}', '\r', ' ', '\U{00A0}', '\U{1680}',
    '\U{2000}', '\U{2001}', '\U{2002}', '\U{2003}', '\U{2004}', '\U{2005}', '\U{2006}',
    '\U{2007}', '\U{2008}', '\U{2009}', '\U{200A}',
    '\U{2028}', '\U{2029}', '\U{202F}', '\U{205F}', '\U{3000}', '\U{FEFF}'
  }

  predicate IsSpace(ch: char)
  {
    ch in WHITE_SPACE
  }

  predicate IsLowerAscii(ch: char)
  {
    'a' <= ch <= 'z'
  }

  /** A valid entry of the word list: five characters, no lower-case ASCII letter. */
  predicate IsWord(w: string)
  {
    |w| == WORD_LENGTH && forall k :: 0 <= k < |w| ==> !IsLowerAscii(w[k])
  }

  /** A usable word list: at least one word to pick a target from, and only valid words. */
  predicate IsWordList(words: seq<string>)
  {
    |words| > 0 && forall w :: w in words ==> IsWord(w)
  }

  /** Removes leading white space. */
  function TrimStart(s: string): (r: string)
    ensures |r| <= |s| && r == s[|s| - |r|..]
    ensures forall k :: 0 <= k < |s| - |r| ==> IsSpace(s[k])
    ensures r == [] || !IsSpace(r[0])
  {
    if s != [] && IsSpace(s[0]) then TrimStart(s[1..]) else s
  }

  /** Removes trailing white space. */
  function TrimEnd(s: string): (r: string)
    ensures |r| <= |s| && r == s[..|r|]
    ensures forall k :: |r| <= k < |s| ==> IsSpace(s[k])
    ensures r == [] || !IsSpace(r[|r| - 1])
  {
    if s != [] && IsSpace(s[|s| - 1]) then TrimEnd(s[..|s| - 1]) else s
  }

  /** `trim`: the line without its leading and trailing white space. */
  function Trim(s: string): (r: string)
    ensures |r| <= |s|
    ensures r == [] || (!IsSpace(r[0]) && !IsSpace(r[|r| - 1]))
  {
    var t := TrimStart(s);
    var r := TrimEnd(t);
    assert r != [] ==> r[0] == t[0];
    r
  }

  /** `toUpperCase`, over the ASCII letters. */
  function ToUpper(s: string): (r: string)
    ensures |r| == |s|
    ensures forall k :: 0 <= k < |r| ==> !IsLowerAscii(r[k])
    ensures forall k :: 0 <= k < |s| && !IsLowerAscii(s[k]) ==> r[k] == s[k]
    ensures forall k :: 0 <= k < |s| && IsLowerAscii(s[k]) ==> r[k] as int == s[k] as int - 32
  {
    seq(|s|, k requires 0 <= k < |s| => if IsLowerAscii(s[k]) then (s[k] as int - 32) as char else s[k])
  }

  /** Upper-casing neither creates nor removes white space at either end of a line. */
  lemma UpperKeepsEnds(t: string)
    requires t != [] && !IsSpace(t[0]) && !IsSpace(t[|t| - 1])
    ensures !IsSpace(ToUpper(t)[0]) && !IsSpace(ToUpper(t)[|t| - 1])
  {
    var r := ToUpper(t);
    if IsLowerAscii(t[0]) {
      UpperIsNotSpace(r[0]);
    }
    if IsLowerAscii(t[|t| - 1]) {
      UpperIsNotSpace(r[|t| - 1]);
    }
  }

  /** No upper-case ASCII letter is white space. */
  lemma UpperIsNotSpace(ch: char)
    requires 'A' <= ch <= 'Z'
    ensures !IsSpace(ch)
  {
  }

  /** One downloaded line as the `map` step leaves it. */
  function Normalize(line: string): (r: string)
    ensures |r| <= |line|
    ensures forall k :: 0 <= k < |r| ==> !IsLowerAscii(r[k])
    ensures r == [] || (!IsSpace(r[0]) && !IsSpace(r[|r| - 1]))
  {
    var t := Trim(line);
    var r := ToUpper(t);
    if r != [] then
      UpperKeepsEnds(t);
      r
    else
      r
  }

  /** The `map`/`filter` chain: every line normalized, keeping those of length five, in order. */
  function ParseWords(lines: seq<string>): (r: seq<string>)
    ensures |r| <= |lines|
    ensures forall w :: w in r ==> IsWord(w)
  {
    if lines == [] then []
    else
      var w := Normalize(lines[0]);
      (if |w| == WORD_LENGTH then [w] else []) + ParseWords(lines[1..])
  }

  /** The fallback list used when the download fails. */
  const FALLBACK: seq<string> := ["APPLE", "HOUSE", "BRAIN", "CLOUD", "SMILE"]

  /** Trimming the end of the suffix of `s` from `i` keeps an infix of `s` starting at `i`,
      and cuts only white space. */
  lemma TrimEndOfSuffix(s: string, i: nat)
    requires i <= |s|
    ensures i + |TrimEnd(s[i..])| <= |s| && TrimEnd(s[i..]) == s[i..i + |TrimEnd(s[i..])|]
    ensures forall k :: i + |TrimEnd(s[i..])| <= k < |s| ==> IsSpace(s[k])
  {
    var r := TrimEnd(s[i..]);
    forall k | i + |r| <= k < |s|
      ensures IsSpace(s[k])
    {
      assert s[k] == s[i..][k - i];
    }
  }

  /** Trimming keeps exactly the part of the line between its leading and trailing white
      space: what is cut on either side is white space (and, by the contract of `Trim`,
      the result neither starts nor ends with it). */
  lemma TrimCutsOnlySpace(s: string)
    ensures var i := |s| - |TrimStart(s)|;
      i + |Trim(s)| <= |s| && Trim(s) == s[i..i + |Trim(s)|]
      && (forall k :: 0 <= k < i ==> IsSpace(s[k]))
      && (forall k :: i + |Trim(s)| <= k < |s| ==> IsSpace(s[k]))
  {
    var i := |s| - |TrimStart(s)|;
    assert TrimStart(s) == s[i..];
    assert Trim(s) == TrimEnd(s[i..]);
    TrimEndOfSuffix(s, i);
  }

  /** The words kept are exactly the normalized lines of length five. */
  lemma {:induction false} ParseWordsMembers(lines: seq<string>, w: string)
    ensures w in ParseWords(lines) <==> |w| == WORD_LENGTH && exists k :: 0 <= k < |lines| && Normalize(lines[k]) == w
  {
    if lines != [] {
      var head, rest := Normalize(lines[0]), lines[1..];
      assert ParseWords(lines) == (if |head| == WORD_LENGTH then [head] else []) + ParseWords(rest);
      ParseWordsMembers(rest, w);
      if k :| 0 <= k < |rest| && Normalize(rest[k]) == w {
        assert Normalize(lines[k + 1]) == w;
      }
      if k :| 0 < k < |lines| && Normalize(lines[k]) == w {
        assert Normalize(rest[k - 1]) == w;
      }
    }
  }

  /** The fallback list is a usable word list. */
  lemma FallbackIsWordList()
    ensures IsWordList(FALLBACK)
  {
    assert IsWord("APPLE") && IsWord("HOUSE") && IsWord("BRAIN") && IsWord("CLOUD") && IsWord("SMILE");
  }

  /** `loadDictionary` as written: the fallback only when the download throws (None);
      otherwise whatever the filter keeps, which may be nothing. */
  function LoadAsWritten(fetched: Option<seq<string>>): (r: seq<string>)
    ensures forall w :: w in r ==> IsWord(w)
    ensures fetched.None? ==> r == FALLBACK
  {
    match fetched
    case None => FALLBACK
    case Some(lines) => ParseWords(lines)
  }

  /** A download that completes but holds no five-letter line (for instance the body
      "404: Not Found" of a missing file, which `fetch` does not treat as an error) leaves
      the word list empty, so no target word can be picked. */
  lemma NotFoundPageLeavesNoWords()
    ensures LoadAsWritten(Some(["404: Not Found"])) == []
  {
    var line := "404: Not Found";
    assert line[0] == '4' && !IsSpace(line[0]);
    assert TrimStart(line) == line;
    assert line[|line| - 1] == 'd' && !IsSpace(line[|line| - 1]);
    assert Trim(line) == line;
    assert |Normalize(line)| == 14;
  }

  /** `loadDictionary` with the fallback also applied when the download yields no word. */
  function LoadDictionary(fetched: Option<seq<string>>): (r: seq<string>)
    ensures IsWordList(r)
    ensures LoadAsWritten(fetched) != [] ==> r == LoadAsWritten(fetched)
  {
    FallbackIsWordList();
    var loaded := LoadAsWritten(fetched);
    if loaded == [] then FALLBACK else loaded
  }
}
