/** The lexical split `infixToRPN` performs with a `StringTokenizer`
    over the delimiters space, `+`, `-`, `*`, `/`, `(` and `)` that also
    returns the delimiters, followed by `trim()` of every token: maximal
    runs of non-delimiter characters and single delimiter characters,
    each trimmed, so that a space becomes the empty token. */
module Tokenizer {
  import opened Seqs
  import opened Text

  /** The delimiter set handed to the `StringTokenizer`: space, `+`, `-`,
      `*`, `/`, `(` and `)`. */
  predicate IsDelimiter(c: char) {
    c == ' ' || c == '+' || c == '-' || c == '*' || c == '/' || c == '(' || c == ')'
  }

  /** A token made of one delimiter character. */
  predicate IsDelimiterToken(t: string) {
    |t| == 1 && IsDelimiter(t[0])
  }

  /** A token made of a nonempty run of non-delimiter characters. */
  predicate IsRun(t: string) {
    |t| > 0 && forall k :: 0 <= k < |t| ==> !IsDelimiter(t[k])
  }

  /** The shape of a `StringTokenizer` split with delimiters returned:
      every token is a delimiter or a run, and runs are maximal, so two
      runs are never neighbours. */
  predicate WellSplit(toks: seq<string>) {
    && (forall i :: 0 <= i < |toks| ==> IsDelimiterToken(toks[i]) || IsRun(toks[i]))
    && (forall i :: 0 <= i < |toks| - 1 ==> !(IsRun(toks[i]) && IsRun(toks[i + 1])))
  }

  /** Length of the leading run of non-delimiter characters. */
  function RunLength(s: string): (n: nat)
    ensures n <= |s|
    ensures forall k :: 0 <= k < n ==> !IsDelimiter(s[k])
    ensures n == |s| || IsDelimiter(s[n])
  {
    if |s| == 0 || IsDelimiter(s[0]) then 0 else 1 + RunLength(s[1..])
  }

  /** The tokens `StringTokenizer.nextToken()` returns in turn, before
      trimming.  They spell out the input exactly and are split at every
      delimiter and nowhere else. */
  function RawTokens(s: string): (r: seq<string>)
    ensures Concat(r) == s
    ensures WellSplit(r)
    ensures |s| > 0 ==> |r| > 0 && |r[0]| > 0 && r[0][0] == s[0]
    decreases |s|
  {
    if |s| == 0 then []
    else
      var n := if IsDelimiter(s[0]) then 1 else RunLength(s);
      var rest := RawTokens(s[n..]);
      SplitStep(s, n, rest);
      [s[..n]] + rest
  }

  /** The first piece of a split in front of the split of what follows it. */
  lemma {:induction false} SplitStep(s: string, n: nat, rest: seq<string>)
    requires |s| > 0 && n == (if IsDelimiter(s[0]) then 1 else RunLength(s))
    requires Concat(rest) == s[n..] && WellSplit(rest)
    requires |s[n..]| > 0 ==> |rest| > 0 && |rest[0]| > 0 && rest[0][0] == s[n..][0]
    ensures 0 < n <= |s|
    ensures Concat([s[..n]] + rest) == s
    ensures WellSplit([s[..n]] + rest)
  {
    var t := s[..n];
    assert IsDelimiterToken(t) || IsRun(t) by {
      if !IsDelimiter(s[0]) {
        forall k | 0 <= k < |t| ensures !IsDelimiter(t[k]) {
          assert t[k] == s[k];
        }
      }
    }
    assert IsRun(t) && |rest| > 0 ==> !IsRun(rest[0]) by {
      if IsRun(t) && |rest| > 0 {
        assert rest[0][0] == s[n];
      }
    }
    SplitCons(t, rest);
    assert t + s[n..] == s;
  }

  /** One more piece in front of a split. */
  lemma {:induction false} SplitCons(t: string, rest: seq<string>)
    requires IsDelimiterToken(t) || IsRun(t)
    requires WellSplit(rest)
    requires IsRun(t) && |rest| > 0 ==> !IsRun(rest[0])
    ensures WellSplit([t] + rest)
    ensures Concat([t] + rest) == t + Concat(rest)
  {
    WellSplitAppend([t], rest);
    assert ([t] + rest)[1..] == rest;
  }

  lemma {:induction false} RunLengthOfRun(w: string, rest: string)
    requires forall k :: 0 <= k < |w| ==> !IsDelimiter(w[k])
    requires |rest| == 0 || IsDelimiter(rest[0])
    ensures RunLength(w + rest) == |w|
  {
    if |w| == 0 {
      assert w + rest == rest;
    } else {
      assert (w + rest)[0] == w[0];
      assert (w + rest)[1..] == w[1..] + rest;
      RunLengthOfRun(w[1..], rest);
    }
  }

  /** The split is the only well-split sequence spelling its input: any
      well-split token sequence is given back by splitting its
      concatenation. */
  lemma {:induction false} RawTokensOfConcat(toks: seq<string>)
    requires WellSplit(toks)
    ensures RawTokens(Concat(toks)) == toks
  {
    if |toks| > 0 {
      var t, tail := toks[0], toks[1..];
      var rest := Concat(tail);
      assert Concat(toks) == t + rest;
      assert WellSplit(tail);
      RawTokensOfConcat(tail);
      if IsDelimiterToken(t) {
        RawTokensDelimiter(t, rest);
      } else {
        assert |rest| == 0 || IsDelimiter(rest[0]) by {
          if |tail| > 0 {
            assert !IsRun(tail[0]) && IsDelimiterToken(tail[0]);
            ConcatHead(tail);
          }
        }
        RawTokensRun(t, rest);
      }
      HeadTail(toks);
    }
  }

  lemma {:induction false} RawTokensDelimiter(t: string, rest: string)
    requires IsDelimiterToken(t)
    ensures RawTokens(t + rest) == [t] + RawTokens(rest)
  {
    assert (t + rest)[0] == t[0];
    assert (t + rest)[..1] == t;
    assert (t + rest)[1..] == rest;
  }

  lemma {:induction false} RawTokensRun(t: string, rest: string)
    requires IsRun(t)
    requires |rest| == 0 || IsDelimiter(rest[0])
    ensures RawTokens(t + rest) == [t] + RawTokens(rest)
  {
    RunLengthOfRun(t, rest);
    assert (t + rest)[0] == t[0];
    assert (t + rest)[..|t|] == t;
    assert (t + rest)[|t|..] == rest;
  }

  lemma {:induction false} WellSplitAppend(a: seq<string>, b: seq<string>)
    requires WellSplit(a) && WellSplit(b)
    requires |a| == 0 || |b| == 0 || !IsRun(a[|a| - 1]) || !IsRun(b[0])
    ensures WellSplit(a + b)
  {
    var c := a + b;
    forall i | 0 <= i < |c| - 1 ensures !(IsRun(c[i]) && IsRun(c[i + 1])) {
      if i + 1 < |a| {
        assert c[i] == a[i] && c[i + 1] == a[i + 1];
      } else if i >= |a| {
        assert c[i] == b[i - |a|] && c[i + 1] == b[i + 1 - |a|];
      }
    }
  }

  /** The last piece of a split ends with the input's last character. */
  lemma {:induction false} SplitLast(r: seq<string>, s: string)
    requires Concat(r) == s && WellSplit(r) && |s| > 0
    ensures |r| > 0 && |r[|r| - 1]| > 0 && r[|r| - 1][|r[|r| - 1]| - 1] == s[|s| - 1]
  {
    var last := r[|r| - 1];
    assert IsDelimiterToken(last) || IsRun(last);
    ConcatLast(r);
  }

  /** Splitting where a delimiter starts or ends a piece: the split of a
      concatenation is the concatenation of the splits. */
  lemma {:induction false} RawTokensAppend(x: string, y: string)
    requires |x| == 0 || |y| == 0 || IsDelimiter(x[|x| - 1]) || IsDelimiter(y[0])
    ensures RawTokens(x + y) == RawTokens(x) + RawTokens(y)
  {
    var a, b := RawTokens(x), RawTokens(y);
    if |x| > 0 && |y| > 0 {
      if IsDelimiter(x[|x| - 1]) {
        SplitLast(a, x);
        assert !IsRun(a[|a| - 1]);
      } else {
        assert !IsRun(b[0]);
      }
    }
    WellSplitAppend(a, b);
    ConcatAppend(a, b);
    RawTokensOfConcat(a + b);
  }

  /** The same for the trimmed tokens. */
  lemma {:induction false} TokenizeAppend(x: string, y: string)
    requires |x| == 0 || |y| == 0 || IsDelimiter(x[|x| - 1]) || IsDelimiter(y[0])
    ensures Tokenize(x + y) == Tokenize(x) + Tokenize(y)
  {
    RawTokensAppend(x, y);
    var a, b := RawTokens(x), RawTokens(y);
    assert Tokenize(x + y) == TrimAll(a + b);
    TrimAllAppend(a, b);
    assert Tokenize(x) == TrimAll(a) && Tokenize(y) == TrimAll(b);
  }

  /** The tokens `infixToRPN` works on: the raw split, each token trimmed.
      Every token is trimmed already, and is the empty token (left by a
      blank), a single non-blank delimiter, or a run without delimiters;
      in particular no token but `-` itself starts with `-`. */
  function Tokenize(s: string): (r: seq<string>)
    ensures forall i :: 0 <= i < |r| ==> Trim(r[i]) == r[i]
    ensures forall i :: 0 <= i < |r| ==>
      r[i] == "" || (IsDelimiterToken(r[i]) && r[i] != " ") || IsRun(r[i])
  {
    var raw := RawTokens(s);
    var r := seq(|raw|, i requires 0 <= i < |raw| => Trim(raw[i]));
    assert forall i :: 0 <= i < |r| ==> Trim(r[i]) == r[i] by {
      forall i | 0 <= i < |r| {
        TrimFixpoint(raw[i]);
      }
    }
    assert forall i :: 0 <= i < |r| ==>
      r[i] == "" || (IsDelimiterToken(r[i]) && r[i] != " ") || IsRun(r[i]) by {
      forall i | 0 <= i < |r| {
        TrimOfSplitToken(raw[i]);
      }
    }
    r
  }

  lemma {:induction false} TrimOfSplitToken(t: string)
    requires IsDelimiterToken(t) || IsRun(t)
    ensures var u := Trim(t); u == "" || (IsDelimiterToken(u) && u != " ") || IsRun(u)
  {
    var u := Trim(t);
    var a := LeadingTrimmed(t);
    var b := KeptEnd(t, a, |t|);
    assert u == t[a..b];
    if IsDelimiterToken(t) && |u| > 0 {
      assert u == t;
    }
  }

  /** Every token trimmed. */
  function TrimAll(toks: seq<string>): (r: seq<string>)
    ensures |r| == |toks|
    ensures forall i :: 0 <= i < |toks| ==> r[i] == Trim(toks[i])
  {
    seq(|toks|, i requires 0 <= i < |toks| => Trim(toks[i]))
  }

  lemma {:induction false} TrimAllOne(t: string)
    ensures TrimAll([t]) == [Trim(t)]
  {
  }

  lemma {:induction false} TrimAllAppend(a: seq<string>, b: seq<string>)
    ensures TrimAll(a + b) == TrimAll(a) + TrimAll(b)
  {
  }

  /** Tokenizing the concatenation of a well-split token sequence gives
      the tokens back, trimmed. */
  lemma {:induction false} TokenizeSplit(toks: seq<string>)
    requires WellSplit(toks)
    ensures Tokenize(Concat(toks)) == TrimAll(toks)
  {
    RawTokensOfConcat(toks);
  }

  /** Tokens without blanks around them come back unchanged from
      tokenizing their concatenation. */
  lemma {:induction false} TokenizeConcat(toks: seq<string>)
    requires WellSplit(toks)
    requires forall i :: 0 <= i < |toks| ==> Trim(toks[i]) == toks[i]
    ensures Tokenize(Concat(toks)) == toks
  {
    TokenizeSplit(toks);
  }
}
