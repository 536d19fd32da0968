/**
 * The word filter: the blocklist kept in word_filters.json, the check every
 * public submission passes through (checkWordFilters, identical in
 * b/index.php and b/mod.php) and the moderator's list maintenance
 * (addWordFilter / removeWordFilter in b/mod.php).
 */
module WordFilter {
  import opened Base
  import opened Php

  /** The decoded word_filters.json: blocked whole words and blocked substrings. */
  datatype Filters = Filters(exact: seq<string>, contains: seq<string>)

  /** The two lists a moderator can edit ('exact' and 'contains'). */
  datatype FilterKind = ExactWord | Substring

  datatype FilterError = EmptyWord | DuplicateWord | SaveFailed | WordNotFound

  // ------------------------------------------------------------- the check

  /**
   * preg_replace('/[^\p{L}\p{N}]+$/u', '', $w): `w` without its trailing run
   * of characters that are neither letters nor digits.
   */
  function StripTrailing(w: string): (r: string)
    ensures |r| <= |w| && r == w[..|r|]
    ensures r != [] ==> IsLetterOrDigit(r[|r| - 1])
    ensures forall k :: |r| <= k < |w| ==> !IsLetterOrDigit(w[k])
  {
    if w != [] && !IsLetterOrDigit(w[|w| - 1]) then StripTrailing(w[..|w| - 1]) else w
  }

  /** Some whitespace-separated token, once its trailing punctuation is stripped, is `wordLower`. */
  predicate HitsToken(tokens: seq<string>, wordLower: string) {
    exists k :: 0 <= k < |tokens| && StripTrailing(tokens[k]) == wordLower
  }

  /** The tokens the exact check compares: preg_split('/\s+/') of the lower-cased text. */
  function Tokens(text: string): seq<string> {
    SplitSpaces(Lower(text))
  }

  /** Exact filter `word` matches `text`. */
  predicate ExactHit(text: string, word: string) {
    HitsToken(Tokens(text), Lower(word))
  }

  /** Contains filter `word` matches `text`: case-insensitive substring. */
  predicate SubstringHit(text: string, word: string) {
    Contains(Lower(text), Lower(word))
  }

  /** The first exact filter that matches `text`, in list order. */
  function FirstExact(exact: seq<string>, text: string): Option<string>
  {
    if exact == [] then None
    else if ExactHit(text, exact[0]) then Some(exact[0])
    else FirstExact(exact[1..], text)
  }

  /** The first contains filter that matches `text`, in list order. */
  function FirstSubstring(contains: seq<string>, text: string): Option<string>
  {
    if contains == [] then None
    else if SubstringHit(text, contains[0]) then Some(contains[0])
    else FirstSubstring(contains[1..], text)
  }

  /**
   * What checkWordFilters returns: the stored spelling of the first exact
   * filter that matches, else of the first contains filter that matches,
   * else nothing.
   */
  function BlockedWord(text: string, filters: Filters): Option<string>
  {
    match FirstExact(filters.exact, text)
    case Some(w) => Some(w)
    case None => FirstSubstring(filters.contains, text)
  }

  /** The inner loop of the exact check: does some stripped token equal `wordLower`? */
  method AnyTokenIs(words: seq<string>, wordLower: string) returns (hit: bool)
    ensures hit == HitsToken(words, wordLower)
  {
    var j := 0;
    while j < |words|
      invariant 0 <= j <= |words|
      invariant forall k :: 0 <= k < j ==> StripTrailing(words[k]) != wordLower
    {
      if StripTrailing(words[j]) == wordLower {
        return true;
      }
      j := j + 1;
    }
    return false;
  }

  /** checkWordFilters(): the two loops of the source, proved to compute BlockedWord. */
  method CheckWordFilters(text: string, filters: Filters) returns (blocked: Option<string>)
    ensures blocked == BlockedWord(text, filters)
  {
    var textLower := Lower(text);
    var words := SplitSpaces(textLower);
    var i := 0;
    while i < |filters.exact|
      invariant 0 <= i <= |filters.exact|
      invariant FirstExact(filters.exact, text) == FirstExact(filters.exact[i..], text)
    {
      var word := filters.exact[i];
      var hit := AnyTokenIs(words, Lower(word));
      assert hit == ExactHit(text, word);
      assert filters.exact[i..][0] == word;
      if hit {
        return Some(word);
      }
      assert filters.exact[i..][1..] == filters.exact[i + 1..];
      i := i + 1;
    }
    i := 0;
    while i < |filters.contains|
      invariant 0 <= i <= |filters.contains|
      invariant FirstSubstring(filters.contains, text) == FirstSubstring(filters.contains[i..], text)
    {
      var word := filters.contains[i];
      var hit := Contains(textLower, Lower(word));
      assert hit == SubstringHit(text, word);
      assert filters.contains[i..][0] == word;
      if hit {
        return Some(word);
      }
      assert filters.contains[i..][1..] == filters.contains[i + 1..];
      i := i + 1;
    }
    return None;
  }

  lemma {:induction false} FirstExactIsFirst(exact: seq<string>, text: string, i: int)
    requires 0 <= i < |exact| && ExactHit(text, exact[i])
    requires forall k :: 0 <= k < i ==> !ExactHit(text, exact[k])
    ensures FirstExact(exact, text) == Some(exact[i])
  {
    if i > 0 {
      assert !ExactHit(text, exact[0]);
      FirstExactIsFirst(exact[1..], text, i - 1);
    }
  }

  lemma {:induction false} FirstExactNone(exact: seq<string>, text: string)
    ensures FirstExact(exact, text) == None <==> forall k :: 0 <= k < |exact| ==> !ExactHit(text, exact[k])
  {
    if exact != [] {
      FirstExactNone(exact[1..], text);
      if !ExactHit(text, exact[0]) {
        assert forall k :: 1 <= k < |exact| ==> exact[k] == exact[1..][k - 1];
      }
    }
  }

  lemma {:induction false} FirstSubstringIsFirst(contains: seq<string>, text: string, i: int)
    requires 0 <= i < |contains| && SubstringHit(text, contains[i])
    requires forall k :: 0 <= k < i ==> !SubstringHit(text, contains[k])
    ensures FirstSubstring(contains, text) == Some(contains[i])
  {
    if i > 0 {
      assert !SubstringHit(text, contains[0]);
      FirstSubstringIsFirst(contains[1..], text, i - 1);
    }
  }

  lemma {:induction false} FirstSubstringNone(contains: seq<string>, text: string)
    ensures FirstSubstring(contains, text) == None
            <==> forall k :: 0 <= k < |contains| ==> !SubstringHit(text, contains[k])
  {
    if contains != [] {
      FirstSubstringNone(contains[1..], text);
      if !SubstringHit(text, contains[0]) {
        assert forall k :: 1 <= k < |contains| ==> contains[k] == contains[1..][k - 1];
      }
    }
  }

  /**
   * A text passes the filter exactly when no exact filter equals (ignoring
   * case) any token with its trailing punctuation stripped, and no contains
   * filter occurs in it (ignoring case).
   */
  lemma BlockedWordNoneIff(text: string, filters: Filters)
    ensures BlockedWord(text, filters) == None
            <==> (forall k :: 0 <= k < |filters.exact| ==> !ExactHit(text, filters.exact[k]))
                 && (forall k :: 0 <= k < |filters.contains| ==> !SubstringHit(text, filters.contains[k]))
  {
    FirstExactNone(filters.exact, text);
    FirstSubstringNone(filters.contains, text);
  }

  /** Exact filters are checked first: the first exact filter that matches is the one reported. */
  lemma BlockedWordExactFirst(text: string, filters: Filters, i: int)
    requires 0 <= i < |filters.exact| && ExactHit(text, filters.exact[i])
    requires forall k :: 0 <= k < i ==> !ExactHit(text, filters.exact[k])
    ensures BlockedWord(text, filters) == Some(filters.exact[i])
  {
    FirstExactIsFirst(filters.exact, text, i);
  }

  /** With no exact match, the first contains filter that matches is the one reported. */
  lemma BlockedWordSubstringNext(text: string, filters: Filters, i: int)
    requires forall k :: 0 <= k < |filters.exact| ==> !ExactHit(text, filters.exact[k])
    requires 0 <= i < |filters.contains| && SubstringHit(text, filters.contains[i])
    requires forall k :: 0 <= k < i ==> !SubstringHit(text, filters.contains[k])
    ensures BlockedWord(text, filters) == Some(filters.contains[i])
  {
    FirstExactNone(filters.exact, text);
    FirstSubstringIsFirst(filters.contains, text, i);
  }

  /** An exact filter blocks the word standing alone, in any case and with trailing punctuation. */
  lemma ExactWordExample(text: string, word: string)
    requires text == "Foo!" && word == "foo"
    ensures BlockedWord(text, Filters([word], [])) == Some(word)
  {
    var l := Lower(text);
    assert l[0] == 'f' && l[1] == 'o' && l[2] == 'o' && l[3] == '!';
    SplitSpacesSingle(l);
    assert StripTrailing(l) == l[..3];
    assert Lower(word) == l[..3];
    assert Tokens(text)[0] == l;
    assert ExactHit(text, word);
  }

  /** An exact filter does not block a longer word that contains it. */
  lemma ExactInsideWordExample(text: string, word: string)
    requires text == "foobar" && word == "foo"
    ensures BlockedWord(text, Filters([word], [])) == None
  {
    var l := Lower(text);
    assert l[0] == 'f' && l[1] == 'o' && l[2] == 'o' && l[3] == 'b' && l[4] == 'a' && l[5] == 'r';
    SplitSpacesSingle(l);
    assert StripTrailing(l) == l;
    assert Tokens(text) == [l];
    assert |Lower(word)| == 3;
    assert !ExactHit(text, word);
    assert [word][1..] == [];
    assert FirstExact([word][1..], text) == None;
    assert FirstExact([word], text) == None;
  }

  /** A contains filter blocks the word inside a longer one. */
  lemma SubstringInsideWordExample(text: string, word: string)
    requires text == "foobar" && word == "foo"
    ensures BlockedWord(text, Filters([], [word])) == Some(word)
  {
    var l := Lower(text);
    assert l[0] == 'f' && l[1] == 'o' && l[2] == 'o';
    var w := Lower(word);
    assert w == l[..3];
    assert OccursAt(l, w, 0);
  }

  // ------------------------------------------------------ list maintenance

  /** unset() of the first entry equal to `word` followed by array_values(). */
  function RemoveFirst(list: seq<string>, word: string): (r: seq<string>)
  {
    match IndexOf(list, word)
    case None => list
    case Some(k) => list[..k] + list[k + 1..]
  }

  /** Removing drops exactly one occurrence of `word` and keeps every other entry in order. */
  lemma RemoveFirstDropsOne(list: seq<string>, word: string)
    requires word in list
    ensures |RemoveFirst(list, word)| == |list| - 1
    ensures multiset(RemoveFirst(list, word)) == multiset(list) - multiset{word}
  {
    var k := IndexOf(list, word).value;
    assert list == list[..k] + [word] + list[k + 1..];
  }

  /** Removing a word just appended (and absent before) restores the list. */
  lemma RemoveUndoesAppend(list: seq<string>, word: string)
    requires word !in list
    ensures RemoveFirst(list + [word], word) == list
  {
    var l := list + [word];
    var r := IndexOf(l, word);
    assert l[|list|] == word;
    assert forall k :: 0 <= k < |list| ==> l[k] == list[k];
  }

  /** The filter_type field of the form: anything but 'contains' means 'exact'. */
  function KindOf(posted: Option<string>): (k: FilterKind)
    ensures k == Substring <==> posted == Some("contains")
  {
    if posted == Some("contains") then Substring else ExactWord
  }

  /** word_filters.json, edited in place by the moderator's filter section. */
  class FilterStore {
    var exact: seq<string>
    var contains: seq<string>

    /** The lists the submission check reads. */
    function Current(): Filters
      reads this
    {
      Filters(exact, contains)
    }

    function List(kind: FilterKind): seq<string>
      reads this
    {
      if kind == ExactWord then exact else contains
    }

    /** loadWordFilters() when the file is missing or unreadable: both lists empty. */
    constructor ()
      ensures exact == [] && contains == []
    {
      exact := [];
      contains := [];
    }

    /**
     * addWordFilter(): the trimmed word is rejected when it is empty in
     * PHP's sense ("" or "0") or already in that list; otherwise it is
     * appended at the end of that list, provided the file is written
     * (`saved`). The other list never changes.
     */
    method Add(word: string, kind: FilterKind, saved: bool) returns (r: Outcome<FilterError>)
      modifies this
      ensures var w := Trim(word);
              r == (if Empty(Some(w)) then Fail(EmptyWord)
                    else if w in old(List(kind)) then Fail(DuplicateWord)
                    else if !saved then Fail(SaveFailed)
                    else Pass)
      ensures r == Pass ==> List(kind) == old(List(kind)) + [Trim(word)]
      ensures r != Pass ==> exact == old(exact) && contains == old(contains)
      ensures kind == ExactWord ==> contains == old(contains)
      ensures kind == Substring ==> exact == old(exact)
    {
      var w := Trim(word);
      if Empty(Some(w)) {
        return Fail(EmptyWord);
      }
      var list := if kind == ExactWord then exact else contains;
      if w in list {
        return Fail(DuplicateWord);
      }
      if !saved {
        return Fail(SaveFailed);
      }
      if kind == ExactWord {
        exact := exact + [w];
      } else {
        contains := contains + [w];
      }
      return Pass;
    }

    /**
     * removeWordFilter(): deletes the first entry equal to `word` from that
     * list and closes the gap. It reports WordNotFound when the word is
     * absent and also when writing the file fails; either way nothing
     * changes then.
     */
    method Remove(word: string, kind: FilterKind, saved: bool) returns (r: Outcome<FilterError>)
      modifies this
      ensures r == (if word in old(List(kind)) && saved then Pass else Fail(WordNotFound))
      ensures r == Pass ==> List(kind) == RemoveFirst(old(List(kind)), word)
      ensures r != Pass ==> exact == old(exact) && contains == old(contains)
      ensures kind == ExactWord ==> contains == old(contains)
      ensures kind == Substring ==> exact == old(exact)
    {
      var list := if kind == ExactWord then exact else contains;
      var key := IndexOf(list, word);
      if key.Some? {
        var k := key.value;
        var rest := list[..k] + list[k + 1..];
        if saved {
          if kind == ExactWord {
            exact := rest;
          } else {
            contains := rest;
          }
          return Pass;
        }
      }
      return Fail(WordNotFound);
    }
  }
}
