/** The string operations WKT parsing relies on (Go's strings and regexp packages). */
module WktText {
  import opened Wrappers

  /** unicode.IsSpace, as strings.TrimSpace uses it. */
  predicate IsSpace(c: char)
  {
    var n := c as int;
    0x09 <= n <= 0x0D || n == 0x20 || n == 0x85 || n == 0xA0 || n == 0x1680 || 0x2000 <= n <= 0x200A
    || n == 0x2028 || n == 0x2029 || n == 0x202F || n == 0x205F || n == 0x3000
  }

  /** The class \s of regular expressions. */
  predicate IsBlank(c: char)
  {
    c in {'\t', '\n', 12 as char, '\r', ' '}
  }

  function TrimLeft(s: string): string
  {
    if s != [] && IsSpace(s[0]) then TrimLeft(s[1..]) else s
  }

  function TrimRight(s: string): string
  {
    if s != [] && IsSpace(s[|s| - 1]) then TrimRight(s[..|s| - 1]) else s
  }

  function TrimSpace(s: string): string
  {
    TrimRight(TrimLeft(s))
  }

  function ToUpper(c: char): char
  {
    if 'a' <= c <= 'z' then (c as int - 32) as char else c
  }

  predicate HasPrefixIgnoringCase(s: string, prefix: string)
  {
    |prefix| <= |s| && forall k :: 0 <= k < |prefix| ==> ToUpper(s[k]) == prefix[k]
  }

  /** strings.Index of one character. */
  function Index(s: string, c: char): (r: Option<nat>)
    ensures r.Some? ==> r.value < |s| && s[r.value] == c && c !in s[..r.value]
    ensures r.None? ==> c !in s
  {
    if s == [] then None
    else if s[0] == c then Some(0)
    else
      match Index(s[1..], c)
      case None => None
      case Some(k) => Some(k + 1)
  }

  function LastIndex(s: string, c: char): (r: Option<nat>)
    ensures r.Some? ==> r.value < |s| && s[r.value] == c && c !in s[r.value + 1..]
    ensures r.None? ==> c !in s
  {
    if s == [] then None
    else if s[|s| - 1] == c then Some(|s| - 1)
    else LastIndex(s[..|s| - 1], c)
  }

  function Join(parts: seq<string>, sep: string): string
  {
    if parts == [] then ""
    else if |parts| == 1 then parts[0]
    else parts[0] + sep + Join(parts[1..], sep)
  }

  /** strings.Split at one character. */
  function Split(s: string, c: char): seq<string>
    decreases |s|
  {
    match Index(s, c)
    case None => [s]
    case Some(k) => [s[..k]] + Split(s[k + 1..], c)
  }

  function BlankIndex(s: string): (k: nat)
    ensures k <= |s|
    ensures forall i :: 0 <= i < k ==> !IsBlank(s[i])
    ensures k < |s| ==> IsBlank(s[k])
  {
    if s == [] || IsBlank(s[0]) then 0 else 1 + BlankIndex(s[1..])
  }

  function SkipBlanks(s: string): (r: string)
    ensures |r| <= |s|
    ensures s != [] && IsBlank(s[0]) ==> |r| < |s|
  {
    if s != [] && IsBlank(s[0]) then SkipBlanks(s[1..]) else s
  }

  /** Splitting at every longest run of blanks. */
  function SplitAtBlanks(s: string): (r: seq<string>)
    ensures |r| >= 1
    decreases |s|
  {
    var k := BlankIndex(s);
    if k == |s| then [s] else [s[..k]] + SplitAtBlanks(SkipBlanks(s[k..]))
  }

  // ---------- facts ----------

  lemma TrimNothing(s: string)
    requires s == [] || (!IsSpace(s[0]) && !IsSpace(s[|s| - 1]))
    ensures TrimSpace(s) == s
  {
  }

  lemma TrimOneSpace(s: string)
    requires s != [] && !IsSpace(s[0]) && !IsSpace(s[|s| - 1])
    ensures TrimSpace(" " + s) == s
  {
    var padded := " " + s;
    assert IsSpace(padded[0]) && padded[1..] == s;
    assert TrimLeft(padded) == TrimLeft(s) == s;
  }

  lemma {:induction false} IndexIs(s: string, c: char, k: nat)
    requires k < |s| && s[k] == c && forall i :: 0 <= i < k ==> s[i] != c
    ensures Index(s, c) == Some(k)
  {
    if k > 0 {
      IndexIs(s[1..], c, k - 1);
    }
  }

  lemma SplitFirst(head: string, tail: string, c: char)
    requires c !in head
    ensures Split(head + [c] + tail, c) == [head] + Split(tail, c)
  {
    var s := head + [c] + tail;
    IndexIs(s, c, |head|);
    assert s[..|head|] == head && s[|head| + 1..] == tail;
  }

  lemma SplitNone(s: string, c: char)
    requires c !in s
    ensures Split(s, c) == [s]
  {
  }

  lemma {:induction false} BlankIndexIs(s: string, k: nat)
    requires k <= |s| && (k < |s| ==> IsBlank(s[k])) && forall i :: 0 <= i < k ==> !IsBlank(s[i])
    ensures BlankIndex(s) == k
  {
    if k > 0 {
      BlankIndexIs(s[1..], k - 1);
    }
  }

  lemma {:induction false} SkipsGap(gap: string, s: string)
    requires (forall k :: 0 <= k < |gap| ==> IsBlank(gap[k])) && (s == [] || !IsBlank(s[0]))
    ensures SkipBlanks(gap + s) == s
  {
    if gap == [] {
      assert gap + s == s;
    } else {
      SkipsGap(gap[1..], s);
      assert (gap + s)[1..] == gap[1..] + s;
    }
  }

  ghost predicate Word(s: string)
  {
    s != [] && forall k :: 0 <= k < |s| ==> !IsSpace(s[k])
  }

  lemma BlankIsSpace(c: char)
    ensures IsBlank(c) ==> IsSpace(c)
  {
  }

  lemma SplitsOffWord(a: string, rest: string)
    requires Word(a) && rest != [] && IsBlank(rest[0])
    ensures SplitAtBlanks(a + rest) == [a] + SplitAtBlanks(SkipBlanks(rest))
  {
    BlankIndexIs(a + rest, |a|);
    assert (a + rest)[..|a|] == a && (a + rest)[|a|..] == rest;
  }

  lemma OneWord(a: string)
    requires Word(a)
    ensures SplitAtBlanks(a) == [a]
  {
    BlankIndexIs(a, |a|);
  }

  /** Two words with blanks between them, and anything after a further blank. */
  lemma TwoWords(a: string, gap: string, b: string, more: string)
    requires Word(a) && Word(b) && gap != [] && (forall k :: 0 <= k < |gap| ==> IsBlank(gap[k]))
    requires more == [] || IsBlank(more[0])
    ensures
      var parts := SplitAtBlanks(a + gap + b + more);
      |parts| >= 2 && parts[0] == a && parts[1] == b && (more == [] ==> |parts| == 2)
  {
    hide SplitAtBlanks, SkipBlanks, IsSpace;
    var rest := gap + b + more;
    BlankIsSpace(b[0]);
    assert a + gap + b + more == a + rest && rest == gap + (b + more);
    SplitsOffWord(a, rest);
    SkipsGap(gap, b + more);
    if more == [] {
      assert b + more == b;
      OneWord(b);
    } else {
      SplitsOffWord(b, more);
    }
  }

  lemma {:induction false} TrimLeftSkips(before: string, s: string)
    requires (forall k :: 0 <= k < |before| ==> IsSpace(before[k])) && s != [] && !IsSpace(s[0])
    ensures TrimLeft(before + s) == s
  {
    hide IsSpace;
    if before == [] {
      assert before + s == s;
    } else {
      TrimLeftSkips(before[1..], s);
      assert (before + s)[1..] == before[1..] + s;
    }
  }

  /** What is left of the text behind a character that is no space is the start of it. */
  lemma {:induction false} TrimRightKeeps(s: string, after: string) returns (kept: string)
    requires s != [] && !IsSpace(s[|s| - 1])
    ensures kept <= after && TrimRight(s + after) == s + kept
    ensures (forall k :: 0 <= k < |after| ==> IsSpace(after[k])) ==> kept == []
    decreases |after|
  {
    hide IsSpace;
    if after == [] {
      kept := [];
      assert s + after == s;
    } else if IsSpace(after[|after| - 1]) {
      kept := TrimRightKeeps(s, after[..|after| - 1]);
      assert (s + after)[..|s + after| - 1] == s + after[..|after| - 1];
    } else {
      kept := after;
      assert (s + after)[|s + after| - 1] == after[|after| - 1];
    }
  }

  /** The ASCII space characters; those of \s are the same but for the vertical tab. */
  lemma AsciiSpaces(c: char)
    requires c as int < 128
    ensures IsSpace(c) <==> c in {'\t', '\n', 11 as char, 12 as char, '\r', ' '}
    ensures IsBlank(c) <==> IsSpace(c) && c as int != 11
  {
  }

  /** The keyword is found in any mixture of cases, and nothing else is. */
  lemma AnyCase(s: string)
    ensures HasPrefixIgnoringCase(s, "POLYGON") <==>
            && |s| >= 7 && s[0] in {'P', 'p'} && s[1] in {'O', 'o'} && s[2] in {'L', 'l'} && s[3] in {'Y', 'y'}
            && s[4] in {'G', 'g'} && s[5] in {'O', 'o'} && s[6] in {'N', 'n'}
  {
    var word := "POLYGON";
    assert word == ['P', 'O', 'L', 'Y', 'G', 'O', 'N'];
    if |s| >= 7 {
      assert HasPrefixIgnoringCase(s, word) <==> forall k :: 0 <= k < 7 ==> ToUpper(s[k]) == word[k];
      assert (forall k :: 0 <= k < 7 ==> ToUpper(s[k]) == word[k]) <==>
        (ToUpper(s[0]) == word[0] && ToUpper(s[1]) == word[1] && ToUpper(s[2]) == word[2] && ToUpper(s[3]) == word[3]
         && ToUpper(s[4]) == word[4] && ToUpper(s[5]) == word[5] && ToUpper(s[6]) == word[6]);
    }
  }
}
