/** The two pieces of Java string handling the pipeline leans on:
    `String.trim()`, and the whitespace splitting of `java.util.Scanner`
    with its default delimiter.  Also the space-joined text the converter
    builds for its output, with the proof that scanning that text gives
    the tokens back. */
module Text {
  import opened Seqs

  /** `String.trim()` removes every leading and trailing character whose
      code is at most U+0020. */
  predicate IsTrimmed(c: char) {
    c <= ' '
  }

  /** Number of leading characters `trim()` removes. */
  function LeadingTrimmed(s: string): (n: nat)
    ensures n <= |s|
    ensures forall k :: 0 <= k < n ==> IsTrimmed(s[k])
    ensures n == |s| || !IsTrimmed(s[n])
  {
    if |s| > 0 && IsTrimmed(s[0]) then 1 + LeadingTrimmed(s[1..]) else 0
  }

  /** The end of the kept part: trailing trimmable characters of
      `s[lo..hi]` are dropped. */
  function KeptEnd(s: string, lo: nat, hi: nat): (b: nat)
    requires lo <= hi <= |s|
    ensures lo <= b <= hi
    ensures forall k :: b <= k < hi ==> IsTrimmed(s[k])
    ensures b == lo || !IsTrimmed(s[b - 1])
    decreases hi
  {
    if hi > lo && IsTrimmed(s[hi - 1]) then KeptEnd(s, lo, hi - 1) else hi
  }

  /** Java's `String.trim()`: the slice left after dropping the trimmable
      characters at both ends. */
  function Trim(s: string): (r: string)
    ensures |r| == 0 || (!IsTrimmed(r[0]) && !IsTrimmed(r[|r| - 1]))
  {
    var a := LeadingTrimmed(s);
    var b := KeptEnd(s, a, |s|);
    s[a..b]
  }

  /** What `trim()` keeps: the slice between a prefix and a suffix of
      trimmable characters, starting and ending with a character that is
      not trimmable (or empty when every character is). */
  lemma TrimSlice(s: string)
    ensures exists a, b ::
      && 0 <= a <= b <= |s| && Trim(s) == s[a..b]
      && (forall k :: 0 <= k < a ==> IsTrimmed(s[k]))
      && (forall k :: b <= k < |s| ==> IsTrimmed(s[k]))
      && (a == b || (!IsTrimmed(s[a]) && !IsTrimmed(s[b - 1])))
  {
    var a := LeadingTrimmed(s);
    var b := KeptEnd(s, a, |s|);
    assert Trim(s) == s[a..b];
    if a < b {
      assert !IsTrimmed(s[a]);
    }
  }

  /** A string that `trim()` leaves alone is one with no trimmable
      character at either end; trimming is therefore idempotent. */
  lemma {:induction false} TrimFixpoint(s: string)
    ensures Trim(s) == s <==> (|s| == 0 || (!IsTrimmed(s[0]) && !IsTrimmed(s[|s| - 1])))
    ensures Trim(Trim(s)) == Trim(s)
  {
    var a := LeadingTrimmed(s);
    if |s| > 0 && !IsTrimmed(s[0]) && !IsTrimmed(s[|s| - 1]) {
      assert a == 0;
      assert KeptEnd(s, 0, |s|) == |s|;
    }
    var t := Trim(s);
    if |t| > 0 {
      assert LeadingTrimmed(t) == 0;
      assert KeptEnd(t, 0, |t|) == |t|;
      assert t[0..|t|] == t;
    }
  }

  /** `Character.isWhitespace`, which `Scanner`'s default delimiter
      `\p{javaWhitespace}+` is built on: the Unicode space, line and
      paragraph separators other than the no-break spaces, plus the
      controls U+0009..U+000D and U+001C..U+001F. */
  predicate IsWhitespace(c: char) {
    || ('\U{9}' <= c <= '\U{D}')
    || ('\U{1C}' <= c <= ' ')
    || c == '\U{1680}'
    || ('\U{2000}' <= c <= '\U{2006}')
    || ('\U{2008}' <= c <= '\U{200A}')
    || c == '\U{2028}' || c == '\U{2029}' || c == '\U{205F}' || c == '\U{3000}'
  }

  /** A token that survives both `trim()` and `Scanner` unchanged. */
  predicate IsPlainWord(w: string) {
    |w| > 0 && forall k :: 0 <= k < |w| ==> !IsTrimmed(w[k]) && !IsWhitespace(w[k])
  }

  /** Length of the leading run of non-whitespace characters. */
  function WordLength(s: string): (n: nat)
    ensures n <= |s|
    ensures forall k :: 0 <= k < n ==> !IsWhitespace(s[k])
    ensures n == |s| || IsWhitespace(s[n])
  {
    if |s| == 0 || IsWhitespace(s[0]) then 0 else 1 + WordLength(s[1..])
  }

  /** The tokens `Scanner.next()` returns in turn: maximal runs of
      non-whitespace characters. */
  function Scan(s: string): (r: seq<string>)
    ensures forall i :: 0 <= i < |r| ==> |r[i]| > 0
    ensures forall i, k :: 0 <= i < |r| && 0 <= k < |r[i]| ==> !IsWhitespace(r[i][k])
    decreases |s|
  {
    if |s| == 0 then []
    else if IsWhitespace(s[0]) then Scan(s[1..])
    else
      var n := WordLength(s);
      [s[..n]] + Scan(s[n..])
  }

  /** A string of whitespace only holds no word. */
  lemma {:induction false} ScanBlank(s: string)
    requires forall k :: 0 <= k < |s| ==> IsWhitespace(s[k])
    ensures Scan(s) == []
    decreases |s|
  {
    if |s| > 0 {
      ScanBlank(s[1..]);
    }
  }

  /** `Scanner.next()` skips the leading whitespace and returns the whole
      run of non-whitespace characters that follows. */
  lemma {:induction false} ScanWord(pre: string, w: string, post: string)
    requires forall k :: 0 <= k < |pre| ==> IsWhitespace(pre[k])
    requires |w| > 0 && forall k :: 0 <= k < |w| ==> !IsWhitespace(w[k])
    requires |post| == 0 || IsWhitespace(post[0])
    ensures Scan(pre + w + post) == [w] + Scan(post)
    decreases |pre|
  {
    var s := pre + w + post;
    if |pre| == 0 {
      assert s == w + post;
      WordLengthOfWord(w, post);
      assert s[..|w|] == w;
      assert s[|w|..] == post;
    } else {
      assert s[0] == pre[0];
      assert s[1..] == pre[1..] + w + post;
      ScanWord(pre[1..], w, post);
    }
  }

  /** Every token followed by one space: what `output.append(token).append(" ")`
      accumulates. */
  function Spaced(ws: seq<string>): string
  {
    if |ws| == 0 then "" else ws[0] + " " + Spaced(ws[1..])
  }

  /** The tokens separated by single spaces. */
  function Join(ws: seq<string>): string
  {
    if |ws| == 0 then "" else if |ws| == 1 then ws[0] else ws[0] + " " + Join(ws[1..])
  }

  lemma {:induction false} SpacedIsJoinPlusSpace(ws: seq<string>)
    requires |ws| > 0
    ensures Spaced(ws) == Join(ws) + " "
  {
    if |ws| > 1 {
      SpacedIsJoinPlusSpace(ws[1..]);
    }
  }

  lemma {:induction false} JoinEnds(ws: seq<string>)
    requires |ws| > 0 && forall i :: 0 <= i < |ws| ==> IsPlainWord(ws[i])
    ensures |Join(ws)| > 0
    ensures !IsTrimmed(Join(ws)[0]) && !IsTrimmed(Join(ws)[|Join(ws)| - 1])
  {
    var w := ws[0];
    assert !IsTrimmed(w[0]) && !IsTrimmed(w[|w| - 1]);
    if |ws| > 1 {
      JoinEnds(ws[1..]);
      var rest := Join(ws[1..]);
      assert Join(ws) == w + " " + rest;
      assert (w + " " + rest)[0] == w[0];
      assert (w + " " + rest)[|w + " " + rest| - 1] == rest[|rest| - 1];
    }
  }

  lemma {:induction false} KeptEndAt(s: string, lo: nat, hi: nat, b: nat)
    requires lo < b <= hi <= |s| && !IsTrimmed(s[b - 1])
    requires forall k :: b <= k < hi ==> IsTrimmed(s[k])
    ensures KeptEnd(s, lo, hi) == b
    decreases hi
  {
    if hi > b {
      KeptEndAt(s, lo, hi - 1, b);
    }
  }

  /** Trimming a string that starts with a kept character and has only
      trimmable characters after position `b - 1` keeps `s[..b]`. */
  lemma {:induction false} TrimKeeps(s: string, b: nat)
    requires 0 < b <= |s| && !IsTrimmed(s[0]) && !IsTrimmed(s[b - 1])
    requires forall k :: b <= k < |s| ==> IsTrimmed(s[k])
    ensures Trim(s) == s[..b]
  {
    assert LeadingTrimmed(s) == 0;
    KeptEndAt(s, 0, |s|, b);
  }

  lemma {:induction false} TrimOneSpace(ws: seq<string>)
    requires |ws| > 0 && |Join(ws)| > 0
    requires !IsTrimmed(Join(ws)[0]) && !IsTrimmed(Join(ws)[|Join(ws)| - 1])
    ensures Trim(Spaced(ws)) == Join(ws)
  {
    var j := Join(ws);
    var s := j + " ";
    SpacedIsJoinPlusSpace(ws);
    TrimKeeps(s, |j|);
    assert s[..|j|] == j;
  }

  /** The converter's output text `Trim(Spaced(ws))` is the tokens joined
      by single spaces when no token has a trimmable end. */
  lemma {:induction false} TrimSpaced(ws: seq<string>)
    requires forall i :: 0 <= i < |ws| ==> IsPlainWord(ws[i])
    ensures Trim(Spaced(ws)) == Join(ws)
  {
    if |ws| > 0 {
      JoinEnds(ws);
      TrimOneSpace(ws);
    }
  }

  lemma {:induction false} WordLengthOfWord(w: string, rest: string)
    requires forall k :: 0 <= k < |w| ==> !IsWhitespace(w[k])
    requires |rest| == 0 || IsWhitespace(rest[0])
    ensures WordLength(w + rest) == |w|
  {
    if |w| == 0 {
      assert w + rest == rest;
    } else {
      assert (w + rest)[0] == w[0];
      assert (w + rest)[1..] == w[1..] + rest;
      WordLengthOfWord(w[1..], rest);
    }
  }

  /** Round trip: scanning the space-joined tokens gives the tokens back. */
  lemma {:induction false} ScanJoin(ws: seq<string>)
    requires forall i :: 0 <= i < |ws| ==> IsPlainWord(ws[i])
    ensures Scan(Join(ws)) == ws
  {
    if |ws| == 1 {
      WordLengthOfWord(ws[0], "");
      assert ws[0] + "" == ws[0];
      assert ws[0][|ws[0]|..] == "";
    } else if |ws| > 1 {
      var w := ws[0];
      var rest := " " + Join(ws[1..]);
      assert Join(ws) == w + rest;
      WordLengthOfWord(w, rest);
      assert (w + rest)[..|w|] == w;
      assert (w + rest)[|w|..] == rest;
      assert rest[1..] == Join(ws[1..]);
      ScanJoin(ws[1..]);
    }
  }

  /** The output text of the converter, scanned back, is its token list. */
  lemma {:induction false} ScanTrimSpaced(ws: seq<string>)
    requires forall i :: 0 <= i < |ws| ==> IsPlainWord(ws[i])
    ensures Scan(Trim(Spaced(ws))) == ws
  {
    TrimSpaced(ws);
    ScanJoin(ws);
  }
}
