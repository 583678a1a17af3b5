/** stan_meme_creator/utils/meme_utils.py: `MemeGenerator`, which holds a catalog of
    meme records and picks the record whose comma-separated tags share the most words
    with a text prompt. */
module MemeUtils {
  import opened Wrappers
  import opened Text

  /** One catalog record: the `images` URL and the comma-separated `tags`. */
  datatype Entry = Entry(images: string, tags: string)

  /** `set(prompt.lower().split())`: the distinct lower-cased words of the prompt. */
  function PromptWords(prompt: string): set<string> {
    set w | w in Words(Lower(prompt))
  }

  /** Every prompt word is non-empty and free of whitespace. */
  lemma PromptWordsAreWords(prompt: string, w: string)
    requires w in PromptWords(prompt)
    ensures w != [] && NoSpace(w)
  {
    var ws := Words(Lower(prompt));
    WordsAreWords(Lower(prompt));
    var i :| 0 <= i < |ws| && ws[i] == w;
  }

  /** A tag as the matcher sees it: stripped of surrounding whitespace, lower-cased. */
  function Tag(piece: string): (t: string)
    ensures ',' !in piece ==> ',' !in t
    ensures t == [] || (!IsSpace(t[0]) && !IsSpace(t[|t| - 1]))
    ensures forall k :: 0 <= k < |t| ==> !('A' <= t[k] <= 'Z')
  {
    StripKeepsCharacters(piece);
    LowerKeepsClasses(Strip(piece));
    Lower(Strip(piece))
  }

  /** Lower-casing a piece first does not change its tag. */
  lemma TagIgnoresCase(piece: string)
    ensures Tag(Lower(piece)) == Tag(piece)
  {
    StripLower(piece);
    LowerIdempotent(Strip(piece));
  }

  /** `set(tag.strip().lower() for tag in tags.split(','))`. */
  function TagSet(tags: string): set<string> {
    set piece | piece in SplitComma(tags) :: Tag(piece)
  }

  /** Every tag is free of commas, of surrounding whitespace and of capital letters. */
  lemma TagsAreNormalised(tags: string, t: string)
    requires t in TagSet(tags)
    ensures ',' !in t && (t == [] || (!IsSpace(t[0]) && !IsSpace(t[|t| - 1])))
    ensures forall k :: 0 <= k < |t| ==> !('A' <= t[k] <= 'Z')
  {
    var parts := SplitComma(tags);
    var piece :| piece in parts && t == Tag(piece);
    SplitCommaNoComma(tags);
  }

  /** `len(tags.intersection(prompt_words))`: positive exactly when some tag is one of
      the words, and never more than the number of words. */
  function Score(entry: Entry, words: set<string>): (n: nat)
    ensures n > 0 <==> exists t :: t in TagSet(entry.tags) && t in words
    ensures n <= |words|
  {
    var common := TagSet(entry.tags) * words;
    SubsetCardinality(common, words);
    CommonMember(TagSet(entry.tags), words);
    |common|
  }

  lemma CommonMember(a: set<string>, b: set<string>)
    ensures |a * b| > 0 <==> exists t :: t in a && t in b
  {
    if |a * b| > 0 {
      assert a * b != {};
      var t :| t in a * b;
    } else {
      assert a * b == {};
      forall t | t in a
        ensures t !in b
      {
        assert t !in a * b;
      }
    }
  }

  lemma SubsetCardinality(a: set<string>, b: set<string>)
    requires a <= b
    ensures |a| <= |b|
  {
    assert b == a + (b - a);
  }

  /** The catalog's holder. `_load_meme_data` is replaced by handing the decoded records
      to the constructor. */
  class MemeGenerator {
    const dataPath: string
    var memeData: seq<Entry>

    constructor (dataPath: string, memeData: seq<Entry>)
      ensures this.dataPath == dataPath && this.memeData == memeData
    {
      this.dataPath := dataPath;
      this.memeData := memeData;
    }

    /** `find_relevant_image`: None when no record shares a word with the prompt (so
        also for an empty catalog); otherwise the `images` of the first record, in
        catalog order, whose score is the largest. The catalog is only read. */
    method FindRelevantImage(prompt: string) returns (best: Option<string>)
      ensures var words := PromptWords(prompt);
              best.None? <==> forall i :: 0 <= i < |memeData| ==> Score(memeData[i], words) == 0
      ensures var words := PromptWords(prompt);
              best.Some? ==>
                exists i :: 0 <= i < |memeData| && memeData[i].images == best.value &&
                  Score(memeData[i], words) > 0 &&
                  (forall j :: 0 <= j < |memeData| ==> Score(memeData[j], words) <= Score(memeData[i], words)) &&
                  (forall j :: 0 <= j < i ==> Score(memeData[j], words) < Score(memeData[i], words))
    {
      var words := PromptWords(prompt);
      best := None;
      var bestScore := 0;
      ghost var bestIndex := 0;
      for i := 0 to |memeData|
        invariant forall j :: 0 <= j < i ==> Score(memeData[j], words) <= bestScore
        invariant best.None? <==> bestScore == 0
        invariant best.Some? ==>
                    bestIndex < i && memeData[bestIndex].images == best.value &&
                    Score(memeData[bestIndex], words) == bestScore &&
                    forall j :: 0 <= j < bestIndex ==> Score(memeData[j], words) < bestScore
      {
        var score := Score(memeData[i], words);
        if score > bestScore {
          bestScore := score;
          best := Some(memeData[i].images);
          bestIndex := i;
        }
        forall j | 0 <= j < i + 1
          ensures Score(memeData[j], words) <= bestScore
        {
          if j == i {
            assert Score(memeData[j], words) == score;
          }
        }
      }
      if best.Some? {
        var i := bestIndex;
        assert 0 <= i < |memeData| && memeData[i].images == best.value &&
          Score(memeData[i], words) > 0 &&
          (forall j :: 0 <= j < |memeData| ==> Score(memeData[j], words) <= Score(memeData[i], words)) &&
          (forall j :: 0 <= j < i ==> Score(memeData[j], words) < Score(memeData[i], words));
      }
    }
  }

  // ---------------------------------------------------------------------------
  // Properties of the score

  /** The prompt's words do not depend on its letter case. */
  lemma PromptWordsIgnoreCase(prompt: string)
    ensures PromptWords(Lower(prompt)) == PromptWords(prompt)
  {
    LowerIdempotent(prompt);
  }

  /** A record's tags do not depend on their letter case. */
  lemma TagSetIgnoresCase(tags: string)
    ensures TagSet(Lower(tags)) == TagSet(tags)
  {
    var parts := SplitComma(tags);
    SplitCommaLower(tags);
    var lowered := LowerEach(parts);
    forall t | t in TagSet(Lower(tags))
      ensures t in TagSet(tags)
    {
      var q :| q in lowered && t == Tag(q);
      var i :| 0 <= i < |lowered| && lowered[i] == q;
      TagIgnoresCase(parts[i]);
      assert parts[i] in parts;
    }
    forall t | t in TagSet(tags)
      ensures t in TagSet(Lower(tags))
    {
      var p :| p in parts && t == Tag(p);
      var i :| 0 <= i < |parts| && parts[i] == p;
      TagIgnoresCase(p);
      assert lowered[i] in lowered;
    }
  }

  /** Matching is case-insensitive on both sides. */
  lemma ScoreIgnoresCase(images: string, tags: string, prompt: string)
    ensures Score(Entry(images, Lower(tags)), PromptWords(Lower(prompt))) == Score(Entry(images, tags), PromptWords(prompt))
  {
    TagSetIgnoresCase(tags);
    PromptWordsIgnoreCase(prompt);
  }

  /** Listing the same tags twice changes nothing. */
  lemma RepeatedTagsIgnored(tags: string)
    ensures TagSet(tags + [','] + tags) == TagSet(tags)
  {
    var parts := SplitComma(tags);
    SplitCommaAppend(tags, tags);
    assert forall piece :: piece in SplitComma(tags + [','] + tags) <==> piece in parts;
  }

  /** Repeating the prompt changes nothing. */
  lemma RepeatedPromptWordsIgnored(prompt: string)
    ensures PromptWords(prompt + [' '] + prompt) == PromptWords(prompt)
  {
    var low := Lower(prompt);
    LowerAppend(prompt + [' '], prompt);
    LowerAppend(prompt, [' ']);
    assert Lower([' ']) == [LowerChar(' ')];
    WordsAppend(low, LowerChar(' '), low);
  }

  /** A tag string without commas or whitespace has the one tag it spells, lower-cased. */
  lemma TagSetOfWord(tag: string)
    requires NoSpace(tag) && ',' !in tag
    ensures TagSet(tag) == {Lower(tag)}
  {
    SplitCommaOfPiece(tag);
    StripNoSpace(tag);
    assert Tag(tag) == Lower(tag);
    assert forall piece :: piece in SplitComma(tag) <==> piece == tag;
  }

  /** A prompt that is one word has that word, lower-cased, as its only word. */
  lemma PromptWordsOfWord(prompt: string)
    requires prompt != [] && NoSpace(prompt)
    ensures PromptWords(prompt) == {Lower(prompt)}
  {
    LowerKeepsClasses(prompt);
    WordsOfWord(Lower(prompt));
  }

  /** An entry tagged with one word matches a prompt that is that word in any letter
      case, with a score of exactly 1. */
  lemma OneWordMatch(images: string, tag: string, prompt: string)
    requires tag != [] && NoSpace(tag) && ',' !in tag
    requires Lower(prompt) == Lower(tag)
    ensures Score(Entry(images, tag), PromptWords(prompt)) == 1
  {
    LowerKeepsClasses(tag);
    LowerKeepsClasses(prompt);
    assert prompt != [] && NoSpace(prompt);
    TagSetOfWord(tag);
    PromptWordsOfWord(prompt);
    assert TagSet(tag) * PromptWords(prompt) == {Lower(tag)};
  }

  /** The tag "Drake" scores 1 against the prompt "drake". */
  lemma DrakeExample(images: string)
    ensures Score(Entry(images, "Drake"), PromptWords("drake")) == 1
  {
    assert Lower("drake") == Lower("Drake");
    OneWordMatch(images, "Drake", "drake");
  }

  /** A tag with whitespace inside it is never one of the prompt's words. */
  lemma SpacedTagNeverMatches(tags: string, prompt: string, t: string)
    requires t in TagSet(tags) && !NoSpace(t)
    ensures t !in TagSet(tags) * PromptWords(prompt)
  {
    if t in PromptWords(prompt) {
      PromptWordsAreWords(prompt, t);
    }
  }
}
