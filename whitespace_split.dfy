/** Tokenising the textarea's text the way `text.split(/(\s+)/)` does, and `String.prototype.trim`.
    Both use the same notion of white space: the ECMAScript WhiteSpace and LineTerminator
    characters. The proofs below never look inside IsWs, so they hold for any such set. */
module WhitespaceSplit {

  /** ECMAScript white space (TAB, VT, FF, ZWNBSP and the Zs space separators)
      and line terminators (LF, CR, LS, PS). */
  predicate IsWs(c: char) {
    c == '\t' || c == '\U{000B}' || c == '\U{000C}' || c == ' ' || c == '\U{00A0}' ||
    c == '\U{1680}' || ('\U{2000}' <= c <= '\U{200A}') || c == '\U{202F}' || c == '\U{205F}' ||
    c == '\U{3000}' || c == '\U{FEFF}' ||
    c == '\n' || c == '\r' || c == '\U{2028}' || c == '\U{2029}'
  }

  predicate NoWs(s: string) {
    forall i :: 0 <= i < |s| ==> !IsWs(s[i])
  }

  predicate AllWs(s: string) {
    forall i :: 0 <= i < |s| ==> IsWs(s[i])
  }

  /** Length of the longest white-space-free prefix of s. */
  function WordLen(s: string): (n: nat)
    ensures n <= |s|
  {
    if s == [] || IsWs(s[0]) then 0 else 1 + WordLen(s[1..])
  }

  /** Length of the longest all-white-space prefix of s. */
  function RunLen(s: string): (n: nat)
    ensures n <= |s|
  {
    if s == [] || !IsWs(s[0]) then 0 else 1 + RunLen(s[1..])
  }

  /** WordLen(s) marks the end of the leading word: nothing before it is white space,
      and the character at it is. */
  lemma {:induction false} WordLenEnds(s: string)
    ensures NoWs(s[..WordLen(s)])
    ensures WordLen(s) < |s| ==> IsWs(s[WordLen(s)])
  {
    if s != [] && !IsWs(s[0]) {
      WordLenEnds(s[1..]);
      assert s[..WordLen(s)] == [s[0]] + s[1..][..WordLen(s[1..])];
    }
  }

  /** RunLen(s) marks the end of the leading white-space run. */
  lemma {:induction false} RunLenEnds(s: string)
    ensures AllWs(s[..RunLen(s)])
    ensures RunLen(s) < |s| ==> !IsWs(s[RunLen(s)])
  {
    if s != [] && IsWs(s[0]) {
      RunLenEnds(s[1..]);
      assert s[..RunLen(s)] == [s[0]] + s[1..][..RunLen(s[1..])];
    }
  }

  /** Where the white-space run that ends the leading word stops. */
  function RunEnd(s: string): (j: nat)
    requires WordLen(s) < |s|
    ensures WordLen(s) < j <= |s|
  {
    WordLen(s) + 1 + RunLen(s[WordLen(s) + 1..])
  }

  /** `s.split(/(\s+)/)`: the maximal white-space runs are the separators, and the capture
      group keeps each of them as a token of its own between the words around it. */
  function Split(s: string): seq<string>
    decreases |s|
  {
    if WordLen(s) == |s| then [s]
    else [s[..WordLen(s)], s[WordLen(s)..RunEnd(s)]] + Split(s[RunEnd(s)..])
  }

  /** Tokens joined back together, in order (`tokens.join("")`). */
  function Concat(toks: seq<string>): string {
    if toks == [] then "" else toks[0] + Concat(toks[1..])
  }

  /** The shape of every result of Split: an odd number of tokens, words at even
      positions, non-empty white-space runs at odd positions, and only the first and the
      last word may be empty. */
  ghost predicate Alternating(toks: seq<string>) {
    |toks| % 2 == 1 &&
    (forall k :: 0 <= k < |toks| && k % 2 == 0 ==> NoWs(toks[k])) &&
    (forall k :: 0 <= k < |toks| && k % 2 == 1 ==> toks[k] != "" && AllWs(toks[k])) &&
    (forall k :: 0 < k < |toks| - 1 ==> toks[k] != "")
  }

  /** `s` without its leading white space. */
  function TrimStart(s: string): string {
    if s != [] && IsWs(s[0]) then TrimStart(s[1..]) else s
  }

  /** `s` without its trailing white space. */
  function TrimEnd(s: string): string {
    if s != [] && IsWs(s[|s| - 1]) then TrimEnd(s[..|s| - 1]) else s
  }

  /** `s.trim()`. */
  function Trim(s: string): string {
    TrimEnd(TrimStart(s))
  }

  lemma {:induction false} WordLenOf(w: string, t: string)
    requires NoWs(w)
    requires t == [] || IsWs(t[0])
    ensures WordLen(w + t) == |w|
    decreases |w|
  {
    if w == [] {
      assert w + t == t;
    } else {
      assert (w + t)[0] == w[0];
      assert (w + t)[1..] == w[1..] + t;
      WordLenOf(w[1..], t);
    }
  }

  lemma {:induction false} RunLenOf(r: string, t: string)
    requires AllWs(r)
    requires t == [] || !IsWs(t[0])
    ensures RunLen(r + t) == |r|
    decreases |r|
  {
    if r == [] {
      assert r + t == t;
    } else {
      assert (r + t)[0] == r[0];
      assert (r + t)[1..] == r[1..] + t;
      RunLenOf(r[1..], t);
    }
  }

  /** One step of the split: the leading word, the white-space run after it, and the
      split of what follows. */
  lemma SplitStep(s: string) returns (i: nat, j: nat)
    requires WordLen(s) < |s|
    ensures i == WordLen(s) && j == RunEnd(s) && i < j <= |s|
    ensures NoWs(s[..i]) && s[i..j] != "" && AllWs(s[i..j])
    ensures j < |s| ==> !IsWs(s[j])
    ensures Split(s) == [s[..i], s[i..j]] + Split(s[j..])
  {
    i := WordLen(s);
    j := RunEnd(s);
    WordLenEnds(s);
    var t := s[i + 1..];
    RunLenEnds(t);
    assert s[i..j] == [s[i]] + s[i + 1..j];
    assert s[i + 1..j] == t[..RunLen(t)];
    assert j < |s| ==> s[j] == t[RunLen(t)];
  }

  lemma ConcatTwo(w: string, r: string, rest: seq<string>)
    ensures Concat([w, r] + rest) == w + r + Concat(rest)
  {
    assert ([w, r] + rest)[1..] == [r] + rest;
    assert ([r] + rest)[1..] == rest;
  }

  /** Joining the tokens of the split reproduces the text exactly. */
  lemma {:induction false} ConcatSplit(s: string)
    ensures Concat(Split(s)) == s
    decreases |s|
  {
    if WordLen(s) < |s| {
      var i, j := SplitStep(s);
      var w, r, rest := s[..i], s[i..j], Split(s[j..]);
      calc {
        Concat(Split(s));
      ==
        Concat([w, r] + rest);
      == { ConcatTwo(w, r, rest); }
        w + r + Concat(rest);
      == { ConcatSplit(s[j..]); }
        w + r + s[j..];
      == { SliceThree(s, i, j); }
        s;
      }
    } else {
      SplitWhole(s);
      assert Concat([s]) == s + Concat([]);
    }
  }

  lemma SliceThree(s: string, i: nat, j: nat)
    requires i <= j <= |s|
    ensures s[..i] + s[i..j] + s[j..] == s
  {
  }

  /** A text without white space is a single token. */
  lemma SplitWhole(s: string)
    requires WordLen(s) == |s|
    ensures Split(s) == [s]
  {
  }

  /** A text that starts with a non-white-space character has a non-empty first token. */
  lemma SplitHeadNonEmpty(s: string)
    requires s != [] && !IsWs(s[0])
    ensures Split(s)[0] != ""
  {
  }

  /** Every split has the alternating shape. */
  lemma {:induction false} SplitAlternates(s: string)
    ensures Alternating(Split(s))
    decreases |s|
  {
    if WordLen(s) < |s| {
      var i, j := SplitStep(s);
      var rest := s[j..];
      SplitAlternates(rest);
      if rest != [] {
        SplitHeadNonEmpty(rest);
      }
      AlternatingCons(s[..i], s[i..j], Split(rest));
    } else {
      WordLenEnds(s);
      assert s[..|s|] == s;
      assert Split(s) == [s];
    }
  }

  lemma AlternatingCons(w: string, r: string, tail: seq<string>)
    requires NoWs(w) && r != "" && AllWs(r)
    requires Alternating(tail) && (|tail| > 1 ==> tail[0] != "")
    ensures Alternating([w, r] + tail)
  {
    var toks := [w, r] + tail;
    forall k | 2 <= k < |toks| ensures toks[k] == tail[k - 2] { }
  }

  lemma AlternatingTail(toks: seq<string>)
    requires Alternating(toks) && |toks| > 1
    ensures Alternating(toks[2..])
  {
    var tail := toks[2..];
    forall k | 0 <= k < |tail| && k % 2 == 0 ensures NoWs(tail[k]) {
      assert tail[k] == toks[k + 2];
    }
    forall k | 0 <= k < |tail| && k % 2 == 1 ensures tail[k] != "" && AllWs(tail[k]) {
      assert tail[k] == toks[k + 2];
    }
    forall k | 0 < k < |tail| - 1 ensures tail[k] != "" {
      assert tail[k] == toks[k + 2];
    }
  }

  /** An alternating tokenisation longer than one token joins to its first word, then a
      white-space run, then a text that does not start with white space. */
  lemma ConcatAlternatingStart(toks: seq<string>)
    requires Alternating(toks) && |toks| > 1
    ensures Concat(toks) == toks[0] + toks[1] + Concat(toks[2..])
    ensures Alternating(toks[2..])
    ensures Concat(toks[2..]) == [] || !IsWs(Concat(toks[2..])[0])
  {
    var tail := toks[2..];
    assert toks[1..][1..] == tail;
    AlternatingTail(toks);
    if |tail| > 1 {
      assert tail[0] == toks[2];
      assert tail[0] != "" && NoWs(tail[0]);
      assert Concat(tail) == tail[0] + Concat(tail[1..]);
      assert Concat(tail)[0] == tail[0][0];
    } else {
      assert Concat(tail) == tail[0] + Concat([]);
    }
  }

  /** Split is the ONLY alternating tokenisation of a text: whatever alternates and joins
      back to s is Split(s). */
  lemma {:induction false} SplitUnique(s: string, toks: seq<string>)
    requires Alternating(toks) && Concat(toks) == s
    ensures toks == Split(s)
    decreases |toks|
  {
    if |toks| == 1 {
      assert Concat(toks) == toks[0] + Concat([]);
      assert s == toks[0] && NoWs(toks[0]);
      SplitNoWs(s);
      assert toks == [toks[0]];
    } else {
      var w, r, tail := toks[0], toks[1], toks[2..];
      ConcatAlternatingStart(toks);
      var t := Concat(tail);
      assert s == w + (r + t);
      assert r[0] == (r + t)[0];
      WordLenOf(w, r + t);
      assert s[|w| + 1..] == r[1..] + t;
      RunLenOf(r[1..], t);
      var i, j := SplitStep(s);
      assert j == |w| + |r|;
      assert s[..i] == w;
      assert s[i..j] == r;
      assert s[j..] == t;
      SplitUnique(t, tail);
      assert toks == [w, r] + tail;
    }
  }

  /** The text with no white space at all is one token; the empty text is the single token "". */
  lemma SplitNoWs(s: string)
    requires NoWs(s)
    ensures Split(s) == [s]
  {
    WordLenOf(s, []);
    assert s + [] == s;
    SplitWhole(s);
  }

  /** `trim` leaves a word alone and empties a white-space run. */
  lemma TrimNoWs(s: string)
    requires NoWs(s)
    ensures Trim(s) == s
  {
  }

  lemma {:induction false} TrimAllWs(s: string)
    requires AllWs(s)
    ensures Trim(s) == ""
    decreases |s|
  {
    if s != [] {
      TrimAllWs(s[1..]);
    }
  }

  /** `TrimStart` cuts a white-space prefix and stops at the first other character. */
  lemma {:induction false} TrimStartParts(s: string) returns (i: nat)
    ensures i <= |s| && TrimStart(s) == s[i..] && AllWs(s[..i])
    ensures i < |s| ==> !IsWs(s[i])
    decreases |s|
  {
    if s != [] && IsWs(s[0]) {
      var i' := TrimStartParts(s[1..]);
      i := i' + 1;
      assert s[1..][i'..] == s[i..];
      assert s[..i] == [s[0]] + s[1..][..i'];
    } else {
      i := 0;
    }
  }

  /** `TrimEnd` cuts a white-space suffix and stops at the last other character. */
  lemma {:induction false} TrimEndParts(s: string) returns (j: nat)
    ensures j <= |s| && TrimEnd(s) == s[..j] && AllWs(s[j..])
    ensures j > 0 ==> !IsWs(s[j - 1])
    decreases |s|
  {
    if s != [] && IsWs(s[|s| - 1]) {
      var p := s[..|s| - 1];
      j := TrimEndParts(p);
      assert p[..j] == s[..j];
      assert s[j..] == p[j..] + [s[|s| - 1]];
    } else {
      j := |s|;
    }
  }

  /** `s.trim()` for any `s`: the infix `s[i..j]` that neither starts nor ends with white
      space, with only white space cut off on either side. */
  lemma TrimParts(s: string) returns (i: nat, j: nat)
    ensures i <= j <= |s| && Trim(s) == s[i..j]
    ensures AllWs(s[..i]) && AllWs(s[j..])
    ensures Trim(s) == "" || (!IsWs(Trim(s)[0]) && !IsWs(Trim(s)[|Trim(s)| - 1]))
  {
    i := TrimStartParts(s);
    var t := s[i..];
    var k := TrimEndParts(t);
    j := i + k;
    assert t[..k] == s[i..j];
    assert t[k..] == s[j..];
  }

  /** What `word.trim()` is for each token of a split: the token itself at even
      positions, "" at odd positions. */
  lemma TrimToken(s: string, k: nat)
    requires k < |Split(s)|
    ensures Trim(Split(s)[k]) == if k % 2 == 0 then Split(s)[k] else ""
  {
    SplitAlternates(s);
    if k % 2 == 0 {
      TrimNoWs(Split(s)[k]);
    } else {
      TrimAllWs(Split(s)[k]);
    }
  }

  /** Every token of a split is either left alone by `trim` or trimmed to "". */
  lemma TokensTrimmed(s: string)
    ensures forall k :: 0 <= k < |Split(s)| ==> Trim(Split(s)[k]) == Split(s)[k] || Trim(Split(s)[k]) == ""
  {
    forall k | 0 <= k < |Split(s)| ensures Trim(Split(s)[k]) == Split(s)[k] || Trim(Split(s)[k]) == "" {
      TrimToken(s, k);
    }
  }
}
