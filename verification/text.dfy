/** String helpers mirroring the JavaScript built-ins the source relies on:
    `\s` and `trim`, `split(/\s+/)`, `split(' ').slice(0, 2).join(' ')`, `toLowerCase`,
    `lastIndexOf` and `replace(/[-_]/g, ' ')`. */
module Text {

  /** JavaScript's white-space class, shared by `\s` and `String.prototype.trim`:
      the WhiteSpace and LineTerminator code points of ECMAScript. */
  predicate IsSpace(c: char)
  {
    || c == ' ' || c == '\t' || c == '\n' || c == '\r' || c == '\U{000B}' || c == '\U{000C}'
    || c == '\U{00A0}' || c == '\U{1680}' || ('\U{2000}' <= c <= '\U{200A}')
    || c == '\U{2028}' || c == '\U{2029}' || c == '\U{202F}' || c == '\U{205F}'
    || c == '\U{3000}' || c == '\U{FEFF}'
  }

  predicate AllSpace(s: string)
  {
    forall i :: 0 <= i < |s| ==> IsSpace(s[i])
  }

  /** `s` without its leading white space: a suffix of `s` that drops only white space. */
  function TrimStart(s: string): (r: string)
    ensures |r| <= |s| && r == s[|s| - |r|..]
    ensures AllSpace(s[..|s| - |r|])
    ensures r == [] || !IsSpace(r[0])
  {
    if |s| > 0 && IsSpace(s[0]) then
      var r := TrimStart(s[1..]);
      assert s[1..][|s| - 1 - |r|..] == s[|s| - |r|..];
      AllSpaceCons(s[..|s| - |r|], s[1..][..|s| - 1 - |r|]);
      r
    else s
  }

  /** White space followed by white space is white space. */
  lemma AllSpaceCons(s: string, t: string)
    requires |s| == |t| + 1 && IsSpace(s[0]) && AllSpace(t)
    requires forall i :: 0 <= i < |t| ==> s[i + 1] == t[i]
    ensures AllSpace(s)
  {
    forall i | 1 <= i < |s|
      ensures IsSpace(s[i])
    {
      assert s[i] == t[i - 1];
    }
  }

  /** White space followed by one more white-space character is white space. */
  lemma AllSpaceSnoc(s: string, t: string)
    requires |s| == |t| + 1 && IsSpace(s[|t|]) && AllSpace(t)
    requires forall i :: 0 <= i < |t| ==> s[i] == t[i]
    ensures AllSpace(s)
  {
    forall i | 0 <= i < |t|
      ensures IsSpace(s[i])
    {
      assert s[i] == t[i];
    }
  }

  /** `s` without its trailing white space: a prefix of `s` that drops only white space. */
  function TrimEnd(s: string): (r: string)
    ensures |r| <= |s| && r == s[..|r|]
    ensures AllSpace(s[|r|..])
    ensures r == [] || !IsSpace(r[|r| - 1])
  {
    if |s| > 0 && IsSpace(s[|s| - 1]) then
      var r := TrimEnd(s[..|s| - 1]);
      AllSpaceSnoc(s[|r|..], s[..|s| - 1][|r|..]);
      r
    else s
  }

  /** JavaScript's `s.trim()`. */
  function Trim(s: string): string
  {
    TrimEnd(TrimStart(s))
  }

  lemma {:induction false} TrimStartEmpty(s: string)
    ensures TrimStart(s) == [] <==> AllSpace(s)
    decreases |s|
  {
    if |s| > 0 && IsSpace(s[0]) {
      TrimStartEmpty(s[1..]);
      if AllSpace(s) {
        assert AllSpace(s[1..]);
      }
      if AllSpace(s[1..]) {
        AllSpaceCons(s, s[1..]);
      }
    }
  }

  /** A trimmed string is empty exactly when the input was all white space; this is
      what the source's `!name.trim()` tests. */
  lemma TrimEmptyIffBlank(s: string)
    ensures Trim(s) == "" <==> AllSpace(s)
  {
    TrimStartEmpty(s);
    var t := TrimStart(s);
    if t != [] {
      assert t[0..] == t;
      assert TrimEnd(t) != [];
    }
  }

  /** Trimming is idempotent, and it never leaves white space at either end. */
  lemma TrimIdempotent(s: string)
    ensures Trim(Trim(s)) == Trim(s)
  {
    var t := TrimStart(s);
    var u := TrimEnd(t);
    if u != [] {
      assert u[0] == t[0];
    }
    assert TrimStart(u) == u;
    assert TrimEnd(u) == u;
  }

  /** The number of maximal white-space runs in `s`. */
  function SpaceRuns(s: string): nat
    decreases |s|
  {
    if |s| == 0 then 0
    else if IsSpace(s[0]) then 1 + SpaceRuns(TrimStart(s[1..]))
    else SpaceRuns(s[1..])
  }

  /** `s.split(/\s+/).length`: every maximal white-space run separates two pieces, so the
      count is the number of runs plus one, even when a run is leading or trailing, and
      the empty string gives a single empty piece. */
  function SplitPieces(s: string): (n: nat)
    ensures n >= 1
  {
    SpaceRuns(s) + 1
  }

  predicate IsWord(w: string)
  {
    |w| > 0 && forall i :: 0 <= i < |w| ==> !IsSpace(w[i])
  }

  /** Words joined by single spaces, as an author would type a message. */
  function JoinWords(words: seq<string>): string
  {
    if |words| == 0 then ""
    else if |words| == 1 then words[0]
    else words[0] + " " + JoinWords(words[1..])
  }

  lemma {:induction false} SpaceRunsAfterWord(w: string, t: string)
    requires forall i :: 0 <= i < |w| ==> !IsSpace(w[i])
    ensures SpaceRuns(w + t) == SpaceRuns(t)
    decreases |w|
  {
    if |w| > 0 {
      assert (w + t)[1..] == w[1..] + t;
      SpaceRunsAfterWord(w[1..], t);
    } else {
      assert w + t == t;
    }
  }

  /** A text of `n` words separated by single spaces splits into exactly `n` pieces. */
  lemma {:induction false} JoinWordsPieces(words: seq<string>)
    requires |words| > 0
    requires forall i :: 0 <= i < |words| ==> IsWord(words[i])
    ensures SplitPieces(JoinWords(words)) == |words|
    decreases |words|
  {
    if |words| == 1 {
      SpaceRunsAfterWord(words[0], "");
      assert words[0] + "" == words[0];
    } else {
      var rest := JoinWords(words[1..]);
      JoinWordsPieces(words[1..]);
      JoinWordsStart(words[1..]);
      assert words[0] + " " + rest == words[0] + (" " + rest);
      SpaceRunsAfterWord(words[0], " " + rest);
      assert (" " + rest)[1..] == rest;
    }
  }

  lemma {:induction false} JoinWordsStart(words: seq<string>)
    requires |words| > 0
    requires forall i :: 0 <= i < |words| ==> IsWord(words[i])
    ensures |JoinWords(words)| > 0 && !IsSpace(JoinWords(words)[0])
  {
    if |words| > 1 {
      assert JoinWords(words)[0] == words[0][0];
    }
  }

  /** JavaScript's `s.split(sep)` for a one-character separator. */
  function Split(s: string, sep: char): (parts: seq<string>)
    ensures |parts| >= 1
    ensures forall i, k :: 0 <= i < |parts| && 0 <= k < |parts[i]| ==> parts[i][k] != sep
    decreases |s|
  {
    if |s| == 0 then [""]
    else
      var rest := Split(s[1..], sep);
      if s[0] == sep then [""] + rest
      else [[s[0]] + rest[0]] + rest[1..]
  }

  /** JavaScript's `parts.join(sep)`. */
  function Join(parts: seq<string>, sep: char): string
  {
    if |parts| == 0 then ""
    else if |parts| == 1 then parts[0]
    else parts[0] + [sep] + Join(parts[1..], sep)
  }

  /** Splitting and joining with the same separator gives back the original string. */
  lemma {:induction false} JoinSplit(s: string, sep: char)
    ensures Join(Split(s, sep), sep) == s
    decreases |s|
  {
    if |s| > 0 {
      var rest := Split(s[1..], sep);
      JoinSplit(s[1..], sep);
      if s[0] == sep {
        assert Split(s, sep) == [""] + rest;
        assert ([""] + rest)[1..] == rest;
      } else {
        var parts := [[s[0]] + rest[0]] + rest[1..];
        assert Split(s, sep) == parts;
        if |rest| > 1 {
          assert parts[1..] == rest[1..];
          assert Join(rest, sep) == rest[0] + [sep] + Join(rest[1..], sep);
        }
      }
    }
  }

  /** `s.split(' ').slice(0, 2).join(' ')`: the first two space-separated tokens. */
  function FirstTwoTokens(s: string): string
  {
    var parts := Split(s, ' ');
    Join(parts[..if |parts| < 2 then |parts| else 2], ' ')
  }

  function CountOf(s: string, c: char): nat
  {
    if |s| == 0 then 0 else (if s[0] == c then 1 else 0) + CountOf(s[1..], c)
  }

  /** The first two tokens are a prefix of the text holding at most one space: the whole text
      when it has at most one space, and otherwise the text up to (not including) its second
      space. */
  lemma {:induction false} FirstTwoTokensPrefix(s: string)
    ensures var h := FirstTwoTokens(s);
      && h <= s
      && CountOf(h, ' ') <= 1
      && (CountOf(s, ' ') <= 1 ==> h == s)
      && (CountOf(s, ' ') >= 2 ==> |h| < |s| && s[|h|] == ' ' && CountOf(h, ' ') == 1)
  {
    var parts := Split(s, ' ');
    JoinSplit(s, ' ');
    SplitCount(s, ' ');
    if |parts| >= 2 {
      var tail := Join(parts[2..], ' ');
      var h := parts[0] + [' '] + parts[1];
      assert parts[..2][1..] == [parts[1]];
      assert Join(parts[..2], ' ') == h;
      if |parts| == 2 {
        assert parts[..2] == parts;
      } else {
        assert parts[1..][1..] == parts[2..];
        assert Join(parts[1..], ' ') == parts[1] + [' '] + tail;
        assert s == h + ([' '] + tail);
      }
      NoSepCount(parts[0], ' ');
      NoSepCount(parts[1], ' ');
      CountAppend(parts[0] + [' '], parts[1]);
      CountAppend(parts[0], [' ']);
    } else {
      assert parts[..|parts|] == parts;
    }
  }

  /** The worked example: of `"a b c"` the hint keeps `"a b"`, not a shorter prefix. */
  lemma FirstTwoTokensExample()
    ensures FirstTwoTokens("a b c") == "a b"
  {
    var s := "a b c";
    var h := FirstTwoTokens(s);
    assert CountOf(s, ' ') == 2;
    FirstTwoTokensPrefix(s);
    assert h == s[..|h|];
    assert |h| == 3;
  }

  lemma {:induction false} CountAppend(a: string, b: string)
    ensures forall c :: CountOf(a + b, c) == CountOf(a, c) + CountOf(b, c)
    decreases |a|
  {
    if |a| == 0 {
      assert a + b == b;
    } else {
      assert (a + b)[1..] == a[1..] + b;
      CountAppend(a[1..], b);
    }
  }

  lemma {:induction false} NoSepCount(w: string, sep: char)
    requires forall k :: 0 <= k < |w| ==> w[k] != sep
    ensures CountOf(w, sep) == 0
    decreases |w|
  {
    if |w| > 0 {
      NoSepCount(w[1..], sep);
    }
  }

  /** Splitting on `sep` yields one more part than there are separators. */
  lemma {:induction false} SplitCount(s: string, sep: char)
    ensures |Split(s, sep)| == CountOf(s, sep) + 1
    decreases |s|
  {
    if |s| > 0 {
      SplitCount(s[1..], sep);
    }
  }

  predicate IsUpperAscii(c: char)
  {
    'A' <= c <= 'Z'
  }

  /** JavaScript's `toLowerCase` on the ASCII letters: no upper-case ASCII letter is left, a
      character changes only when it is such a letter (and then becomes the letter 32 code points
      on), and text without one comes back unchanged. */
  function LowerAscii(s: string): (r: string)
    ensures |r| == |s|
    ensures forall i :: 0 <= i < |r| ==> !IsUpperAscii(r[i])
    ensures forall i :: 0 <= i < |s| && r[i] != s[i] ==> IsUpperAscii(s[i]) && r[i] as int == s[i] as int + 32
    ensures (forall i :: 0 <= i < |s| ==> !IsUpperAscii(s[i])) ==> r == s
  {
    seq(|s|, i requires 0 <= i < |s| =>
      if 'A' <= s[i] <= 'Z' then (s[i] as int + 32) as char else s[i])
  }

  /** Lowering twice is lowering once. */
  lemma LowerAsciiIdempotent(s: string)
    ensures LowerAscii(LowerAscii(s)) == LowerAscii(s)
  {
  }

  /** JavaScript's `s.lastIndexOf(c)`: the last position holding `c`, or -1. */
  function LastIndexOf(s: string, c: char): (r: int)
    ensures -1 <= r < |s|
    ensures r == -1 <==> c !in s
    ensures r >= 0 ==> s[r] == c
    ensures forall k :: r < k < |s| ==> s[k] != c
  {
    if |s| == 0 then -1
    else if s[|s| - 1] == c then |s| - 1
    else LastIndexOf(s[..|s| - 1], c)
  }

  /** `s.replace(/[-_]/g, ' ')`: no dash or underscore is left, a character changes only when it
      is one (and then becomes a space), and text without one comes back unchanged. */
  function DashesToSpaces(s: string): (r: string)
    ensures |r| == |s|
    ensures forall i :: 0 <= i < |r| ==> r[i] != '-' && r[i] != '_'
    ensures forall i :: 0 <= i < |s| && r[i] != s[i] ==> (s[i] == '-' || s[i] == '_') && r[i] == ' '
    ensures '-' !in s && '_' !in s ==> r == s
  {
    seq(|s|, i requires 0 <= i < |s| => if s[i] == '-' || s[i] == '_' then ' ' else s[i])
  }

  /** Replacing twice is replacing once. */
  lemma DashesToSpacesIdempotent(s: string)
    ensures DashesToSpaces(DashesToSpaces(s)) == DashesToSpaces(s)
  {
  }
}
