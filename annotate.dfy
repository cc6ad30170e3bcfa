/** `replaceWithButton` of the textarea component: the typed text is split into words and
    white-space runs, and every token whose trimmed text is a key of the matched-terms map
    becomes a popover button; every other token stays literal text. */
module Annotate {
  import opened WhitespaceSplit

  /** One entry of a phrase's term list in the term-matching response. */
  datatype Term = Term(variableName: string, code: string)

  /** The parsed term-matching response: matched phrase -> its terms, in the service's order. */
  type MatchedTerms = map<string, seq<Term>>

  /** One child of the rendered paragraph. `key` is the React key, the token's index.
      A button shows `caption` and, in its popover, `content`. */
  datatype Elem =
    | Button(caption: string, content: string, key: nat)
    | Literal(text: string, key: nat)
  {
    /** The text the element puts on the page. */
    function Shown(): string {
      match this
      case Button(caption, _, _) => caption
      case Literal(text, _) => text
    }
  }

  /** Why the callback for token `key` throws:
      - `ShadowedHasOwnProperty`: the response has its own key "hasOwnProperty", whose
        value (a list) hides the inherited method, so `matched_terms.hasOwnProperty(...)`
        is not a function;
      - `MissingTermList`: the untrimmed token is not a key, so `matched_terms[word]` is
        undefined;
      - `EmptyTermList`: the token's list is empty, so `matched_terms[word][0]` is
        undefined. */
  datatype BuildError =
    | ShadowedHasOwnProperty(key: nat)
    | MissingTermList(key: nat)
    | EmptyTermList(key: nat)

  datatype Result<T> = Ok(value: T) | Err(error: BuildError)

  /** The response hides `Object.prototype.hasOwnProperty` behind a key of its own. */
  predicate ShadowsHasOwnProperty(matched: MatchedTerms) {
    "hasOwnProperty" in matched
  }

  /** The condition under which a token becomes a button: `word.trim()` is a non-empty
      key of the map. */
  predicate IsTermToken(word: string, matched: MatchedTerms) {
    Trim(word) in matched && Trim(word) != ""
  }

  /** A token that would become a button but whose term list has no first entry. */
  predicate LacksTerms(word: string, matched: MatchedTerms) {
    IsTermToken(word, matched) && |matched[Trim(word)]| == 0
  }

  /** Every term token among words has a first term to show. */
  predicate AllHaveTerms(words: seq<string>, matched: MatchedTerms) {
    forall i :: 0 <= i < |words| ==> !LacksTerms(words[i], matched)
  }

  /** k is the first token among words that is a term token without terms. */
  predicate FirstLacking(words: seq<string>, matched: MatchedTerms, k: nat) {
    k < |words| && LacksTerms(words[k], matched) &&
    forall i :: 0 <= i < k ==> !LacksTerms(words[i], matched)
  }

  /** What the element emitted for a token must be: a button labelled with the token and
      showing the first term's variable name when the token is a term, else the token
      as literal text. */
  ghost predicate IsElementFor(word: string, key: nat, matched: MatchedTerms, e: Elem) {
    e.key == key &&
    if IsTermToken(word, matched) then
      e.Button? && e.caption == word && word in matched && |matched[word]| > 0 &&
      e.content == matched[word][0].variableName
    else
      e == Literal(word, key)
  }

  /** elems renders the tokens: one element per token, in order. */
  ghost predicate RendersTokens(words: seq<string>, matched: MatchedTerms, elems: seq<Elem>) {
    |elems| == |words| &&
    forall i :: 0 <= i < |elems| ==> IsElementFor(words[i], i, matched, elems[i])
  }

  /** elems is the rendering of text: one element per token of the split, in order. */
  ghost predicate Annotation(text: string, matched: MatchedTerms, elems: seq<Elem>) {
    RendersTokens(Split(text), matched, elems)
  }

  /** The body of the `forEach` callback for one token: a button or a span. The test uses
      the trimmed token but the lookup the untrimmed one, so a token with surrounding white
      space whose trimmed text is a key throws; no token of the split is like that
      (TokensTrimmed). Before any of that, the test itself throws if the response
      shadows `hasOwnProperty`. */
  method ElementFor(word: string, index: nat, matched: MatchedTerms) returns (r: Result<Elem>)
    ensures r.Err? <==>
              ShadowsHasOwnProperty(matched) ||
              (IsTermToken(word, matched) && (word !in matched || |matched[word]| == 0))
    ensures r.Ok? ==> IsElementFor(word, index, matched, r.value)
    ensures r.Err? ==> r.error.key == index
    ensures r.Err? ==> (r.error.ShadowedHasOwnProperty? <==> ShadowsHasOwnProperty(matched))
    ensures r.Err? && !ShadowsHasOwnProperty(matched) ==>
              (r.error.MissingTermList? <==> word !in matched)
    ensures Trim(word) == word || Trim(word) == "" ==>
              (r.Err? <==> ShadowsHasOwnProperty(matched) || LacksTerms(word, matched))
  {
    if "hasOwnProperty" in matched {
      return Err(ShadowedHasOwnProperty(index));
    }
    var trimmed := Trim(word);
    if trimmed in matched && trimmed != "" {
      if word !in matched {
        return Err(MissingTermList(index));
      }
      var terms := matched[word];
      if |terms| == 0 {
        return Err(EmptyTermList(index));
      }
      return Ok(Button(word, terms[0].variableName, index));
    }
    return Ok(Literal(word, index));
  }

  /** `words.forEach(...)` pushing into `elements`: stops at the first token whose
      callback throws, otherwise renders every token. A response that shadows
      `hasOwnProperty` makes the very first callback throw. */
  method AnnotateTokens(words: seq<string>, matched: MatchedTerms) returns (r: Result<seq<Elem>>)
    requires forall i :: 0 <= i < |words| ==> Trim(words[i]) == words[i] || Trim(words[i]) == ""
    ensures r.Ok? <==> AllHaveTerms(words, matched) && (words == [] || !ShadowsHasOwnProperty(matched))
    ensures r.Ok? ==> RendersTokens(words, matched, r.value)
    ensures r.Err? && ShadowsHasOwnProperty(matched) ==> r.error == ShadowedHasOwnProperty(0)
    ensures r.Err? && !ShadowsHasOwnProperty(matched) ==>
              FirstLacking(words, matched, r.error.key) && r.error.EmptyTermList?
  {
    var elements: seq<Elem> := [];
    var i := 0;
    while i < |words|
      invariant 0 <= i <= |words| && |elements| == i
      invariant forall k :: 0 <= k < i ==> IsElementFor(words[k], k, matched, elements[k])
      invariant forall k :: 0 <= k < i ==> !LacksTerms(words[k], matched)
      invariant i > 0 ==> !ShadowsHasOwnProperty(matched)
    {
      var e := ElementFor(words[i], i, matched);
      if e.Err? {
        return Err(e.error);
      }
      elements := elements + [e.value];
      i := i + 1;
    }
    return Ok(elements);
  }

  /** `replaceWithButton(text, matched_terms)`: fails at token 0 when the response shadows
      `hasOwnProperty`, else at the first term token whose list is empty, and otherwise
      returns the annotation of the whole text. */
  method ReplaceWithButton(text: string, matched: MatchedTerms) returns (r: Result<seq<Elem>>)
    ensures r.Ok? <==> !ShadowsHasOwnProperty(matched) && AllHaveTerms(Split(text), matched)
    ensures r.Ok? ==> Annotation(text, matched, r.value)
    ensures r.Err? && ShadowsHasOwnProperty(matched) ==> r.error == ShadowedHasOwnProperty(0)
    ensures r.Err? && !ShadowsHasOwnProperty(matched) ==>
              FirstLacking(Split(text), matched, r.error.key) && r.error.EmptyTermList?
  {
    assert Split(text) != [];
    TokensTrimmed(text);
    r := AnnotateTokens(Split(text), matched);
  }

  /** The text the whole paragraph shows: every element's text, in order. */
  function Rendered(elems: seq<Elem>): string {
    if elems == [] then "" else elems[0].Shown() + Rendered(elems[1..])
  }

  lemma {:induction false} RenderedTokens(elems: seq<Elem>, toks: seq<string>)
    requires |elems| == |toks|
    requires forall i :: 0 <= i < |elems| ==> elems[i].Shown() == toks[i]
    ensures Rendered(elems) == Concat(toks)
  {
    if elems != [] {
      RenderedTokens(elems[1..], toks[1..]);
    }
  }

  /** Annotating loses and adds no text: the paragraph reads exactly as the text typed. */
  lemma AnnotationShowsText(text: string, matched: MatchedTerms, elems: seq<Elem>)
    requires Annotation(text, matched, elems)
    ensures Rendered(elems) == text
  {
    var words := Split(text);
    assert RendersTokens(words, matched, elems);
    forall i | 0 <= i < |elems| ensures elems[i].Shown() == words[i] {
      assert IsElementFor(words[i], i, matched, elems[i]);
    }
    RenderedTokens(elems, words);
    ConcatSplit(text);
  }

  /** There is only one annotation of a text under a given map. */
  lemma AnnotationUnique(text: string, matched: MatchedTerms, e1: seq<Elem>, e2: seq<Elem>)
    requires Annotation(text, matched, e1) && Annotation(text, matched, e2)
    ensures e1 == e2
  {
    var words := Split(text);
    forall i | 0 <= i < |e1| ensures e1[i] == e2[i] {
      assert IsElementFor(words[i], i, matched, e1[i]);
      assert IsElementFor(words[i], i, matched, e2[i]);
    }
  }

  /** Buttons only ever stand for words: they sit at even token positions, their caption is
      a non-empty, white-space-free key of the map, and white-space runs stay literal. */
  lemma ButtonsAreWords(text: string, matched: MatchedTerms, elems: seq<Elem>, i: nat)
    requires Annotation(text, matched, elems) && i < |elems|
    ensures elems[i].Button? ==>
              i % 2 == 0 && elems[i].caption == Split(text)[i] && NoWs(elems[i].caption) &&
              elems[i].caption != "" && elems[i].caption in matched
    ensures i % 2 == 1 ==> elems[i] == Literal(Split(text)[i], i)
  {
    var words := Split(text);
    assert IsElementFor(words[i], i, matched, elems[i]);
    SplitAlternates(text);
    TrimToken(text, i);
  }

  /** A key that contains white space (a multi-word phrase) never yields a button. */
  lemma PhraseKeyNeverButton(text: string, matched: MatchedTerms, elems: seq<Elem>, phrase: string)
    requires Annotation(text, matched, elems)
    requires phrase in matched && !NoWs(phrase)
    ensures forall i :: 0 <= i < |elems| && elems[i].Button? ==> elems[i].caption != phrase
  {
    forall i | 0 <= i < |elems| && elems[i].Button? ensures elems[i].caption != phrase {
      ButtonsAreWords(text, matched, elems, i);
    }
  }

  /** The empty text renders as one empty span. */
  lemma EmptyTextAnnotation(matched: MatchedTerms, elems: seq<Elem>)
    requires Annotation("", matched, elems)
    ensures elems == [Literal("", 0)]
  {
    SplitNoWs("");
    assert IsElementFor("", 0, matched, elems[0]);
  }

  /** A single matched word becomes a single button whose popover shows the variable name
      of the phrase's first term. */
  lemma SingleWordAnnotation(word: string, matched: MatchedTerms, elems: seq<Elem>)
    requires word != "" && NoWs(word)
    requires word in matched && |matched[word]| > 0
    requires Annotation(word, matched, elems)
    ensures elems == [Button(word, matched[word][0].variableName, 0)]
  {
    SplitNoWs(word);
    TrimNoWs(word);
    assert IsElementFor(word, 0, matched, elems[0]);
  }
}
