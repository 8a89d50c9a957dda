/**
 * The small pieces of pic2plate.py that read the model's answers: the recipe
 * title (line 137), the video search query (line 166) and the check that an
 * image description reports no food (line 111).
 */
module Response {
  import opened PyStr

  // ---------------------------------------------------------------------------
  // Recipe title
  // ---------------------------------------------------------------------------

  /** `response.text.split('\n')[0].strip()`. */
  function RecipeTitle(text: string): (title: string)
    ensures IsStripped(title) && '\n' !in title && |title| <= |text|
  {
    var first := Split(text, '\n')[0];
    StripWithin(first, '\n');
    var k := if '\n' in text then IndexOf(text, '\n') else |text|;
    SplitHead(text, '\n', k);
    Strip(first)
  }

  /** The title is the text before the first line break (or all the text when
      there is none), stripped. */
  lemma TitleIsFirstLine(text: string, k: nat)
    requires k <= |text| && '\n' !in text[..k] && (k == |text| || text[k] == '\n')
    ensures RecipeTitle(text) == Strip(text[..k])
  {
    SplitHead(text, '\n', k);
  }

  /** An empty answer has an empty title: `''.split('\n')` is `['']`. */
  lemma EmptyAnswerEmptyTitle(text: string)
    requires text == []
    ensures RecipeTitle(text) == []
  {
    TitleIsFirstLine(text, 0);
    StripIdempotent([]);
  }

  /** Leading blank lines are not skipped: an answer that starts with a line
      break has an empty title, whatever follows. */
  lemma LeadingLineBreakEmptyTitle(text: string)
    requires text != [] && text[0] == '\n'
    ensures RecipeTitle(text) == []
  {
    TitleIsFirstLine(text, 0);
    StripIdempotent([]);
  }

  // ---------------------------------------------------------------------------
  // Video search query
  // ---------------------------------------------------------------------------

  /** The infix of `f"{recipe_name} recipe {language_preference}"`. */
  const QueryInfix: string := " recipe "

  /** The query sent to the video search: the title, " recipe ", then the
      language, each where it belongs and nothing else. */
  function SearchQuery(title: string, language: string): (q: string)
    ensures |q| == |title| + |QueryInfix| + |language|
    ensures q[..|title|] == title
    ensures q[|title|..|title| + |QueryInfix|] == QueryInfix
    ensures q[|title| + |QueryInfix|..] == language
  {
    title + QueryInfix + language
  }

  /** The query for the tomato soup recipe in English. */
  lemma TomatoSoupQuery()
    ensures SearchQuery("Tomato Soup", "English") == "Tomato Soup recipe English"
  {
  }

  // ---------------------------------------------------------------------------
  // Food detection
  // ---------------------------------------------------------------------------

  const NoFoodPhrase: string := "no food items"

  /** `pat` occurs at `i` in `s` once `s` is lowercased. */
  predicate MatchesIgnoringCase(s: string, pat: string, i: int) {
    0 <= i && i + |pat| <= |s| && forall j :: 0 <= j < |pat| ==> LowerChar(s[i + j]) == pat[j]
  }

  /** `pat in s.lower()` is a case-insensitive match of `pat` somewhere in `s`. */
  lemma ContainsLowerIff(s: string, pat: string)
    ensures Contains(Lower(s), pat) <==> exists i :: MatchesIgnoringCase(s, pat, i)
  {
    var low := Lower(s);
    forall i ensures OccursAt(low, pat, i) <==> MatchesIgnoringCase(s, pat, i) {
      if 0 <= i && i + |pat| <= |s| {
        if MatchesIgnoringCase(s, pat, i) {
          assert low[i..i + |pat|] == pat;
        }
        if OccursAt(low, pat, i) {
          forall j | 0 <= j < |pat| ensures LowerChar(s[i + j]) == pat[j] {
            assert low[i..i + |pat|][j] == low[i + j];
          }
        }
      }
    }
  }

  /** `"no food items" in image_response.text.lower()`: the description says
      "no food items" in any mix of upper and lower case. */
  predicate NoFoodDetected(description: string)
    ensures NoFoodDetected(description) ==> |description| >= |NoFoodPhrase|
  {
    Contains(Lower(description), NoFoodPhrase)
  }

  /** The image flow stops exactly when the phrase occurs, ignoring case. */
  lemma NoFoodDetectedIff(description: string)
    ensures NoFoodDetected(description) <==> exists i :: MatchesIgnoringCase(description, NoFoodPhrase, i)
  {
    ContainsLowerIff(description, NoFoodPhrase);
  }
}
