/**
 The string primitives the retrieval step is built from, with Python's
 meaning: `str.split()` with no separator, `str.lower()` (restricted to
 ASCII letters), the substring test `word in text`, and `sep.join(parts)`.
 */
module Text {

  /** Python's `str.isspace()` set, which `str.split()` with no separator
      treats as word boundaries. */
  predicate IsSpace(c: char) {
    || ('\t' <= c <= '\r')
    || ('\U{1C}' <= c <= '\U{1F}')
    || c == ' '
    || c == '\U{85}'
    || c == '\U{A0}'
    || c == '\U{1680}'
    || ('\U{2000}' <= c <= '\U{200A}')
    || c == '\U{2028}'
    || c == '\U{2029}'
    || c == '\U{202F}'
    || c == '\U{205F}'
    || c == '\U{3000}'
  }

  predicate NoSpace(s: string) {
    forall i :: 0 <= i < |s| ==> !IsSpace(s[i])
  }

  predicate AllSpace(s: string) {
    forall i :: 0 <= i < |s| ==> IsSpace(s[i])
  }

  /** The longest prefix of `s` that holds no whitespace. */
  function WordPrefix(s: string): (w: string)
    ensures |w| <= |s| && w == s[..|w|]
    ensures NoSpace(w)
    ensures |w| < |s| ==> IsSpace(s[|w|])
  {
    if s == [] || IsSpace(s[0]) then [] else [s[0]] + WordPrefix(s[1..])
  }

  /** `s.split()`: the maximal runs of non-whitespace characters, in order.
      Leading, trailing and repeated whitespace produce no empty words. */
  function Split(s: string): (words: seq<string>)
    ensures forall k :: 0 <= k < |words| ==> |words[k]| > 0 && NoSpace(words[k])
    decreases |s|
  {
    if s == [] then []
    else if IsSpace(s[0]) then Split(s[1..])
    else
      var w := WordPrefix(s);
      [w] + Split(s[|w|..])
  }

  /** `s.split()` yields no word exactly when `s` is empty or all whitespace. */
  lemma {:induction false} SplitEmptyIff(s: string)
    ensures Split(s) == [] <==> AllSpace(s)
    decreases |s|
  {
    if s != [] {
      if IsSpace(s[0]) {
        SplitEmptyIff(s[1..]);
        if AllSpace(s[1..]) {
          forall i | 0 <= i < |s| ensures IsSpace(s[i]) {
            if i > 0 { assert s[i] == s[1..][i - 1]; }
          }
        }
      }
    }
  }

  /** A whitespace-free non-empty string is a single word. */
  lemma SplitWord(w: string)
    requires |w| > 0 && NoSpace(w)
    ensures Split(w) == [w]
  {
    WordPrefixWhole(w);
    assert w[|w|..] == [];
  }

  lemma {:induction false} WordPrefixWhole(w: string)
    requires NoSpace(w)
    ensures WordPrefix(w) == w
    decreases |w|
  {
    if w != [] {
      assert NoSpace(w[1..]) by {
        forall i | 0 <= i < |w[1..]| ensures !IsSpace(w[1..][i]) {
          assert w[1..][i] == w[i + 1];
        }
      }
      WordPrefixWhole(w[1..]);
    }
  }

  lemma SplitSpaces(s: string)
    requires AllSpace(s)
    ensures Split(s) == []
  {
    SplitEmptyIff(s);
  }

  /** Two strings that meet at whitespace split independently. */
  lemma {:induction false} SplitAppend(a: string, b: string)
    requires a == [] || b == [] || IsSpace(a[|a| - 1]) || IsSpace(b[0])
    ensures Split(a + b) == Split(a) + Split(b)
    decreases |a|
  {
    if a == [] {
      assert a + b == b;
    } else if b == [] {
      assert a + b == a;
    } else if IsSpace(a[0]) {
      assert (a + b)[1..] == a[1..] + b;
      SplitAppend(a[1..], b);
    } else {
      WordPrefixAppend(a, b);
      var w := WordPrefix(a);
      assert (a + b)[|w|..] == a[|w|..] + b;
      SplitAppend(a[|w|..], b);
    }
  }

  lemma {:induction false} WordPrefixAppend(a: string, b: string)
    requires b == [] || IsSpace(b[0]) || (a != [] && IsSpace(a[|a| - 1]))
    ensures WordPrefix(a + b) == WordPrefix(a)
    decreases |a|
  {
    if a == [] {
      assert a + b == b;
    } else if b == [] {
      assert a + b == a;
    } else if !IsSpace(a[0]) {
      assert (a + b)[1..] == a[1..] + b;
      WordPrefixAppend(a[1..], b);
    }
  }

  /** `" ".join(words)`: single spaces between the words. */
  function JoinSpaced(words: seq<string>): string {
    Join(words, " ")
  }

  /** Splitting undoes joining with single spaces, for any list of
      non-empty whitespace-free words. */
  lemma {:induction false} SplitJoinRoundTrip(words: seq<string>)
    requires forall k :: 0 <= k < |words| ==> |words[k]| > 0 && NoSpace(words[k])
    ensures Split(JoinSpaced(words)) == words
    decreases |words|
  {
    if words == [] {
    } else if |words| == 1 {
      SplitWord(words[0]);
    } else {
      var rest := JoinSpaced(words[1..]);
      assert JoinSpaced(words) == words[0] + (" " + rest);
      SplitAppend(words[0], " " + rest);
      SplitWord(words[0]);
      assert (" " + rest)[1..] == rest;
      SplitJoinRoundTrip(words[1..]);
      assert words == [words[0]] + words[1..];
    }
  }

  /** Python's `str.lower()` on ASCII letters; every other character is kept. */
  function LowerChar(c: char): char {
    if 'A' <= c <= 'Z' then (c as int - 'A' as int + 'a' as int) as char else c
  }

  function Lower(s: string): string {
    seq(|s|, i requires 0 <= i < |s| => LowerChar(s[i]))
  }

  function LowerAll(words: seq<string>): seq<string> {
    seq(|words|, k requires 0 <= k < |words| => Lower(words[k]))
  }

  /** Lower-casing never turns a letter into whitespace or back. */
  lemma LowerKeepsSpace(c: char)
    ensures IsSpace(LowerChar(c)) == IsSpace(c)
  {
  }

  lemma LowerAppend(a: string, b: string, c: string)
    ensures Lower(a + b + c) == Lower(a) + Lower(b) + Lower(c)
  {
  }

  lemma {:induction false} WordPrefixLower(s: string)
    ensures WordPrefix(Lower(s)) == Lower(WordPrefix(s))
    decreases |s|
  {
    if s != [] {
      LowerKeepsSpace(s[0]);
      if !IsSpace(s[0]) {
        assert Lower(s)[1..] == Lower(s[1..]);
        WordPrefixLower(s[1..]);
        assert Lower([s[0]] + WordPrefix(s[1..])) == [LowerChar(s[0])] + Lower(WordPrefix(s[1..]));
      }
    }
  }

  /** Lower-casing a text lower-cases each of its words and keeps the word
      boundaries: `s.lower().split() == [w.lower() for w in s.split()]`. */
  lemma {:induction false} SplitLower(s: string)
    ensures Split(Lower(s)) == LowerAll(Split(s))
    decreases |s|
  {
    if s != [] {
      LowerKeepsSpace(s[0]);
      if IsSpace(s[0]) {
        assert Lower(s)[1..] == Lower(s[1..]);
        SplitLower(s[1..]);
      } else {
        var w := WordPrefix(s);
        WordPrefixLower(s);
        assert Lower(s)[|w|..] == Lower(s[|w|..]);
        SplitLower(s[|w|..]);
        assert LowerAll([w] + Split(s[|w|..])) == [Lower(w)] + LowerAll(Split(s[|w|..]));
      }
    }
  }

  predicate StartsWith(s: string, prefix: string) {
    |prefix| <= |s| && s[..|prefix|] == prefix
  }

  predicate EndsWith(s: string, suffix: string) {
    |suffix| <= |s| && s[|s| - |suffix|..] == suffix
  }

  /** Python's `pattern in text` for strings: some position of `text`
      starts with `pattern`. The empty pattern is in every text. */
  predicate Contains(text: string, pattern: string) {
    exists i | 0 <= i <= |text| :: StartsWith(text[i..], pattern)
  }

  lemma ContainsInfix(before: string, pattern: string, after: string)
    ensures Contains(before + pattern + after, pattern)
  {
    var t := before + pattern + after;
    assert t[|before|..][..|pattern|] == pattern;
    assert StartsWith(t[|before|..], pattern);
  }

  /** A text holds no pattern longer than itself. */
  lemma ContainsLength(text: string, pattern: string)
    requires Contains(text, pattern)
    ensures |pattern| <= |text|
  {
  }

  /** A pattern inside a piece of a text is inside the text. */
  lemma ContainsTransitive(text: string, piece: string, pattern: string)
    requires Contains(text, piece) && Contains(piece, pattern)
    ensures Contains(text, pattern)
  {
    var i :| 0 <= i <= |text| && StartsWith(text[i..], piece);
    var j :| 0 <= j <= |piece| && StartsWith(piece[j..], pattern);
    assert text[i..][..|piece|] == piece;
    forall k | 0 <= k < |pattern| ensures text[i + j + k] == pattern[k] {
      assert piece[j + k] == text[i..][..|piece|][j + k];
    }
    assert text[i + j..][..|pattern|] == pattern;
  }

  /** `sep.join(parts)`. */
  function Join(parts: seq<string>, sep: string): string
    decreases |parts|
  {
    if parts == [] then []
    else if |parts| == 1 then parts[0]
    else parts[0] + sep + Join(parts[1..], sep)
  }

  /** With a non-empty separator, the join is empty exactly when there is
      nothing to join or the only part is empty. */
  lemma JoinEmptyIff(parts: seq<string>, sep: string)
    requires sep != []
    ensures Join(parts, sep) == [] <==> parts == [] || parts == [[]]
  {
    if |parts| >= 2 {
      assert |Join(parts, sep)| >= |sep|;
    }
  }

  /** `parts` occur in `text` one after another, without overlapping,
      in the given order. */
  predicate OccursInOrder(text: string, parts: seq<string>)
    decreases |parts|
  {
    parts == [] ||
    exists i | 0 <= i <= |text| ::
      StartsWith(text[i..], parts[0]) && OccursInOrder(text[i + |parts[0]|..], parts[1..])
  }

  lemma OccursInOrderCons(before: string, part: string, after: string, rest: seq<string>)
    requires OccursInOrder(after, rest)
    ensures OccursInOrder(before + (part + after), [part] + rest)
  {
    var t := before + (part + after);
    assert t[|before|..][..|part|] == part;
    assert t[|before| + |part|..] == after;
    assert ([part] + rest)[1..] == rest;
  }

  /** Every part of an ordered occurrence is a substring of the text. */
  lemma {:induction false} OccursInOrderContains(text: string, parts: seq<string>)
    requires OccursInOrder(text, parts)
    ensures forall k :: 0 <= k < |parts| ==> Contains(text, parts[k])
    decreases |parts|
  {
    if parts != [] {
      var i :| 0 <= i <= |text| && StartsWith(text[i..], parts[0])
                && OccursInOrder(text[i + |parts[0]|..], parts[1..]);
      var tail := text[i + |parts[0]|..];
      OccursInOrderContains(tail, parts[1..]);
      forall k | 0 <= k < |parts| ensures Contains(text, parts[k]) {
        if k == 0 {
          assert StartsWith(text[i..], parts[0]);
        } else {
          assert parts[k] == parts[1..][k - 1];
          var j :| 0 <= j <= |tail| && StartsWith(tail[j..], parts[k]);
          assert tail[j..] == text[i + |parts[0]| + j..];
        }
      }
    }
  }

  /** Joining six parts, written out. */
  lemma JoinSix(parts: seq<string>, sep: string)
    requires |parts| == 6
    ensures Join(parts, sep) ==
              parts[0] + sep + (parts[1] + sep + (parts[2] + sep + (parts[3] + sep + (parts[4] + sep + parts[5]))))
  {
    assert Join(parts[5..], sep) == parts[5];
    assert Join(parts[4..], sep) == parts[4] + sep + Join(parts[5..], sep);
    assert Join(parts[3..], sep) == parts[3] + sep + Join(parts[4..], sep);
    assert Join(parts[2..], sep) == parts[2] + sep + Join(parts[3..], sep);
    assert Join(parts[1..], sep) == parts[1] + sep + Join(parts[2..], sep);
  }

  /** Regrouping a concatenation of nine texts to the right. */
  lemma ConcatNine<T>(a: seq<T>, b: seq<T>, c: seq<T>, d: seq<T>, e: seq<T>,
                      f: seq<T>, g: seq<T>, h: seq<T>, i: seq<T>)
    ensures a + b + c + d + e + f + g + h + i == a + (b + (c + (d + (e + (f + (g + (h + i)))))))
  {
    assert a + b + c + d + e + f + g + h + i == (a + b + c + d + e + f + g) + (h + i);
    assert (a + b + c + d + e + f + g) + (h + i) == (a + b + c + d + e + f) + (g + (h + i));
    assert (a + b + c + d + e + f) + (g + (h + i)) == (a + b + c + d + e) + (f + (g + (h + i)));
    assert (a + b + c + d + e) + (f + (g + (h + i))) == (a + b + c + d) + (e + (f + (g + (h + i))));
    assert (a + b + c + d) + (e + (f + (g + (h + i)))) == (a + b + c) + (d + (e + (f + (g + (h + i)))));
    assert (a + b + c) + (d + (e + (f + (g + (h + i))))) == (a + b) + (c + (d + (e + (f + (g + (h + i))))));
  }

  /** Four pieces set between fixed texts occur in order. */
  lemma OccursInOrderFour(t0: string, x0: string, t1: string, x1: string, t2: string,
                          x2: string, t3: string, x3: string, t4: string)
    ensures OccursInOrder(t0 + x0 + t1 + x1 + t2 + x2 + t3 + x3 + t4, [x0, x1, x2, x3])
  {
    var s3 := t3 + (x3 + t4);
    var s2 := t2 + (x2 + s3);
    var s1 := t1 + (x1 + s2);
    assert OccursInOrder(t4, []);
    OccursInOrderCons(t3, x3, t4, []);
    assert [x3] + [] == [x3];
    OccursInOrderCons(t2, x2, s3, [x3]);
    assert [x2] + [x3] == [x2, x3];
    OccursInOrderCons(t1, x1, s2, [x2, x3]);
    assert [x1] + [x2, x3] == [x1, x2, x3];
    OccursInOrderCons(t0, x0, s1, [x1, x2, x3]);
    assert [x0] + [x1, x2, x3] == [x0, x1, x2, x3];
    ConcatNine(t0, x0, t1, x1, t2, x2, t3, x3, t4);
  }

  /** Whitespace-bounded chunks interleaved with arbitrary texts split chunk by
      chunk. */
  lemma SplitInterleaved(c0: string, x0: string, c1: string, x1: string, c2: string,
                         x2: string, c3: string, x3: string, c4: string)
    requires |c0| > 0 && IsSpace(c0[|c0| - 1])
    requires |c1| > 0 && IsSpace(c1[0]) && IsSpace(c1[|c1| - 1])
    requires |c2| > 0 && IsSpace(c2[0]) && IsSpace(c2[|c2| - 1])
    requires |c3| > 0 && IsSpace(c3[0]) && IsSpace(c3[|c3| - 1])
    requires |c4| > 0 && IsSpace(c4[0])
    ensures Split(c0 + x0 + c1 + x1 + c2 + x2 + c3 + x3 + c4) ==
              Split(c0) + (Split(x0) + (Split(c1) + (Split(x1) + (Split(c2)
              + (Split(x2) + (Split(c3) + (Split(x3) + Split(c4))))))))
  {
    var s8 := x3 + c4;
    var s7 := c3 + s8;
    var s6 := x2 + s7;
    var s5 := c2 + s6;
    var s4 := x1 + s5;
    var s3 := c1 + s4;
    var s2 := x0 + s3;
    SplitAppend(x3, c4);
    SplitAppend(c3, s8);
    SplitAppend(x2, s7);
    SplitAppend(c2, s6);
    SplitAppend(x1, s5);
    SplitAppend(c1, s4);
    SplitAppend(x0, s3);
    SplitAppend(c0, s2);
    ConcatNine(c0, x0, c1, x1, c2, x2, c3, x3, c4);
  }

  /** The pieces of `s` between occurrences of `sep`, including empty ones
      (as Python's `s.split(sep)` for a one-character separator). The query
      parser reads the combined query's lines with it. */
  function SplitOn(s: string, sep: char): (pieces: seq<string>)
    ensures |pieces| > 0
    ensures forall k :: 0 <= k < |pieces| ==> sep !in pieces[k]
    decreases |s|
  {
    if s == [] then [[]]
    else
      var rest := SplitOn(s[1..], sep);
      if s[0] == sep then [[]] + rest
      else [[s[0]] + rest[0]] + rest[1..]
  }

  /** Joining the pieces back with the separator restores the text. */
  lemma {:induction false} JoinSplitOn(s: string, sep: char)
    ensures Join(SplitOn(s, sep), [sep]) == s
    decreases |s|
  {
    if s != [] {
      var rest := SplitOn(s[1..], sep);
      JoinSplitOn(s[1..], sep);
      if s[0] == sep {
        assert SplitOn(s, sep) == [[]] + rest;
        assert ([[]] + rest)[1..] == rest;
      } else {
        var pieces := [[s[0]] + rest[0]] + rest[1..];
        if |rest| == 1 {
          assert pieces == [[s[0]] + rest[0]];
        } else {
          assert pieces[1..] == rest[1..];
          assert Join(rest, [sep]) == rest[0] + [sep] + Join(rest[1..], [sep]);
        }
      }
    }
  }

  /** Splitting undoes joining, when no part holds the separator. */
  lemma {:induction false} SplitOnJoin(parts: seq<string>, sep: char)
    requires |parts| > 0
    requires forall k :: 0 <= k < |parts| ==> sep !in parts[k]
    ensures SplitOn(Join(parts, [sep]), sep) == parts
    decreases |parts|
  {
    if |parts| == 1 {
      SplitOnNoSep(parts[0], sep);
    } else {
      SplitOnJoin(parts[1..], sep);
      SplitOnPrefix(parts[0], Join(parts[1..], [sep]), sep);
      assert Join(parts, [sep]) == parts[0] + ([sep] + Join(parts[1..], [sep]));
      assert ([sep] + Join(parts[1..], [sep]))[1..] == Join(parts[1..], [sep]);
      assert parts == [parts[0]] + parts[1..];
    }
  }

  lemma {:induction false} SplitOnNoSep(w: string, sep: char)
    requires sep !in w
    ensures SplitOn(w, sep) == [w]
    decreases |w|
  {
    if w != [] {
      assert sep !in w[1..];
      SplitOnNoSep(w[1..], sep);
      assert [w[0]] + w[1..] == w;
    }
  }

  /** A separator-free word in front of `sep + tail` becomes the first piece. */
  lemma {:induction false} SplitOnPrefix(w: string, tail: string, sep: char)
    requires sep !in w
    ensures SplitOn(w + ([sep] + tail), sep) == [w] + SplitOn(tail, sep)
    decreases |w|
  {
    if w == [] {
      assert w + ([sep] + tail) == [sep] + tail;
      assert ([sep] + tail)[1..] == tail;
    } else {
      assert sep !in w[1..];
      SplitOnPrefix(w[1..], tail, sep);
      assert (w + ([sep] + tail))[1..] == w[1..] + ([sep] + tail);
      assert [w[0]] + w[1..] == w;
    }
  }
}
