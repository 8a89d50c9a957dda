# pic2plate recipe handler: a verified model of its text processing

pic2plate is a Streamlit app. The user either types a list of ingredients
or uploads a photo of them. For a photo, the app first asks a generative
model to describe the food in it. It then asks the same model for a recipe
from the typed list or the description, and shows that recipe with a
nutrition table and YouTube suggestions. The logic that reads the
model's answers sits inline in the button handler of `pic2plate.py`. This
project factors it into Dafny and proves what it does:

- **Food check** (line 111). The image description reports no food when
  its lowercased text contains "no food items".
- **Recipe title** (line 137). The first line of the recipe text, with
  Python `strip()` applied.
- **Nutrition table** (lines 140-163). The handler finds the first
  "Nutritional information per serving:" and the first "Alternative
  ingredient suggestions:". It slices and strips the text between them,
  then splits that text into lines. Every line with a `:` is cut at its
  first `:` into a stripped key and value. These go into an
  insertion-ordered dictionary, where the last write wins. The handler
  ends in one of four outcomes:
  - section missing;
  - no nutritional information;
  - not readable;
  - a table with one row per key.
- **Video query** (line 166). `title + " recipe " + language`.
- **Video layout** (lines 175-189). Results are laid out two per row.

Modules:

- `Optional` (`optional.dfy`) holds the `Option` datatype: a value that
  may be absent.
- `PyStr` (`pystr.dfy`) models the Python `str` built-ins the handler
  uses: `find`, `in`, `split`, `split(sep, 1)`, `strip`, `lower` and
  slicing.
- `Response` (`response.dfy`) holds the title, the query and the food
  check.
- `Nutrition` (`nutrition.dfy`) holds the section lookup and the line
  parser. The dictionary loop is an imperative method, proved against the
  functions `Keys` and `Dict`.
- `VideoLayout` (`videos.dfy`) holds the two-column loop, proved against
  the predicate `IsPairing`.

When the first end heading does not come after the end of the first start
heading, Python's slice yields `''`, so the handler prints "No nutritional
information found." rather than reporting a missing section;
`Nutrition.SectionEmptyWhenEndBeforeStart` states this.

## Model

| member | source | states |
|---|---|---|
| PyStr.IsSpace | pic2plate.py:137 | The characters `strip()` removes, those of Python's `str.isspace()`. No printable ASCII character other than the blank is among them, so `:` and letters are never stripped. |
| PyStr.FindFrom | pic2plate.py:140-141 | The scan either returns -1 or an index where the pattern occurs. The pattern occurs nowhere between the starting point and that index. |
| PyStr.Find | pic2plate.py:140-141 | `find` returns -1 exactly when the pattern occurs nowhere. Otherwise it returns the first occurrence. |
| PyStr.FindIsFirstOccurrence | pic2plate.py:140-141 | `find` returns `i` if and only if `i` is the first occurrence, or `i` is -1 and there is none. |
| PyStr.Contains | pic2plate.py:111 | Python's `pat in s` for strings, used at lines 111 and 151: it holds exactly when the pattern occurs at some index. |
| PyStr.IndexOf | pic2plate.py:137 | Gives the position of the first separator: the character there is the separator, and no earlier character is. |
| PyStr.JoinContains | pic2plate.py:147 | A non-separator character is in the joined text exactly when it is in one of the pieces. |
| PyStr.Split | pic2plate.py:137 | `split(sep)` always gives at least one piece. No piece holds the separator. Joining the pieces with the separator gives back the input. |
| PyStr.SplitHead | pic2plate.py:137 | The first piece of `split(sep)` is the text before the first separator, or the whole text when there is none. |
| PyStr.SplitOnce | pic2plate.py:152 | `split(':', 1)` gives a colon-free head, then the separator, then the rest. Together they rebuild the line. |
| PyStr.SplitOnceUnique | pic2plate.py:152 | Any cut of the line into a separator-free head, the separator and a rest is the one `split(sep, 1)` returns. |
| PyStr.TextStartUnique | pic2plate.py:137 | A string has exactly one position where its leading whitespace ends. |
| PyStr.TextEndUnique | pic2plate.py:137 | A string has exactly one position where its trailing whitespace starts. |
| PyStr.TrimStartIsSuffix | pic2plate.py:137 | Removing leading whitespace leaves the suffix that starts at the first non-space character. |
| PyStr.TrimEndIsPrefix | pic2plate.py:137 | Removing trailing whitespace leaves the prefix that ends at the last non-space character. |
| PyStr.Strip | pic2plate.py:137 | `strip()` never lengthens the text. The result neither starts nor ends with whitespace. |
| PyStr.StripIsMiddle | pic2plate.py:137 | `strip()` returns the middle of a cut of the input into whitespace, text and whitespace. |
| PyStr.StripWithin | pic2plate.py:153 | `strip()` introduces no character that was not in its input. |
| PyStr.StripUnique | pic2plate.py:137 | Any cut into whitespace, a stripped middle and whitespace has that middle as the result of `strip()`. |
| PyStr.StripIdempotent | pic2plate.py:153 | A stripped string is left alone, so stripping twice equals stripping once. |
| PyStr.Slice | pic2plate.py:143 | Python slicing with non-negative bounds. Both bounds are clamped to the length. Crossed bounds give `''`. |
| PyStr.Lower | pic2plate.py:111 | `lower()` on ASCII letters: keeps the length and lowercases each character. |
| Response.RecipeTitle | pic2plate.py:137 | The title is stripped and holds no line break. It is no longer than the answer. |
| Response.TitleIsFirstLine | pic2plate.py:137 | The title is the text before the first line break, or all the text, stripped. |
| Response.EmptyAnswerEmptyTitle | pic2plate.py:137 | An empty answer gives the empty title, because `''.split('\n')` is `['']`. |
| Response.LeadingLineBreakEmptyTitle | pic2plate.py:137 | An answer that starts with a line break has the empty title. Later lines are not consulted. |
| Response.SearchQuery | pic2plate.py:166 | The query is the title, then " recipe ", then the language, at fixed positions. Its length is the sum of the three lengths. |
| Response.TomatoSoupQuery | pic2plate.py:166 | The title "Tomato Soup" with the language "English" gives "Tomato Soup recipe English". |
| Response.ContainsLowerIff | pic2plate.py:111 | A phrase is in the lowercased text exactly when it matches somewhere, ignoring case. |
| Response.NoFoodDetected | pic2plate.py:111 | The check `"no food items" in image_response.text.lower()`. It can only hold for a description at least as long as the phrase. |
| Response.NoFoodDetectedIff | pic2plate.py:111-113 | The image flow stops exactly when "no food items" occurs in the description, in any mix of upper and lower case. |
| Nutrition.Section | pic2plate.py:140-143 | The two `find` calls, the `!= -1` test and the stripped slice. When there is a section, it is stripped and no longer than the answer. |
| Nutrition.SectionMissingIffMarkerAbsent | pic2plate.py:140-142 | There is no section exactly when one of the headings occurs nowhere. That is also exactly when the outcome is "section missing". |
| Nutrition.SectionBetweenFirstMarkers | pic2plate.py:140-143 | With both headings present in order, the section is the stripped text between the end of the first start heading and the first end heading. |
| Nutrition.SectionEmptyWhenEndBeforeStart | pic2plate.py:143-145 | If the first end heading starts no later than the end of the first start heading, the section is empty and the outcome is "no nutritional information". |
| Nutrition.ParseLine | pic2plate.py:151-153 | A line gives an entry exactly when it holds a `:`. Key and value are stripped, and the key holds no `:`. |
| Nutrition.ParseLineAtFirstColon | pic2plate.py:151-153 | A line is cut at its first `:`. The entry is the stripped text before it and the stripped text after it. |
| Nutrition.ValueKeepsLaterColons | pic2plate.py:152-153 | A line `key: value` gives exactly that pair, even when the value holds further colons, as in "A: b: c". |
| Nutrition.StripLeadingBlank | pic2plate.py:153 | Stripping a stripped value written after one blank gives the value back. |
| Nutrition.Entries | pic2plate.py:150-153 | There are at most as many entries as lines. Every key and every value is stripped. |
| Nutrition.EntriesEmptyIffNoColon | pic2plate.py:151 | There are no entries exactly when no line holds a `:`. |
| Nutrition.EntriesSnoc | pic2plate.py:150-153 | One more line appends its entry, when it has one, and changes nothing else. |
| Nutrition.EntriesSnocEntry | pic2plate.py:150-153 | A line that parses to an entry appends exactly that entry. |
| Nutrition.EntriesWhenAllParse | pic2plate.py:150-153 | Lines that each parse give their entries one apiece, in line order. |
| Nutrition.Keys | pic2plate.py:148-153 | The insertion order of `nutrition_dict`'s keys. There are at most as many keys as entries, and there are none exactly when there is no entry. |
| Nutrition.Dict | pic2plate.py:148-153 | The contents of `nutrition_dict` after the assignments, the last one to a key winning. It has at most one key per entry, and it is empty exactly when there is no entry. |
| Nutrition.KeysAreDictDomain | pic2plate.py:148-153 | The ordered keys, the dictionary's domain and the named nutrients are the same set. |
| Nutrition.KeysDistinct | pic2plate.py:153 | Assigning an existing key does not add it again, so each key appears once. |
| Nutrition.KeysInFirstAppearanceOrder | pic2plate.py:153-156 | The keys are ordered by first appearance. When an entry names a later key, an earlier entry has already named every earlier key. |
| Nutrition.DictLastWins | pic2plate.py:153 | The last entry that names a key supplies that key's value. |
| Nutrition.DictSnoc | pic2plate.py:153 | One assignment `d[k] = v` appends `k` to the key order only if it is new, and maps `k` to `v`. |
| Nutrition.DictEmptyIffNoEntries | pic2plate.py:155 | The dictionary is empty exactly when there are no entries. |
| Nutrition.LastEntryOf | pic2plate.py:153 | Every key in the dictionary has a last entry that names it. |
| Nutrition.DuplicateNutrientKeepsLastAmount | pic2plate.py:150-156 | Two lines that name the same nutrient give one row, with the second amount. |
| Nutrition.TwoEntryRows | pic2plate.py:153-156 | Two entries with the same key give a single row, holding the later value. |
| Nutrition.Items | pic2plate.py:156 | `list(d.items())` in key order: row `i` pairs key `i` with its value. |
| Nutrition.Rows | pic2plate.py:156 | There is one row per distinct key, in first-appearance order. Each row carries the dictionary's final value for its key. |
| Nutrition.NutritionOf | pic2plate.py:140-163 | The handler's four-way outcome for a given answer and pair of headings. It is "section missing" exactly when there is no section, and a table always has at least one row, as the test at line 155 demands. |
| Nutrition.UnreadableIffNoColon | pic2plate.py:147-159 | A non-empty section is "not readable" exactly when it holds no `:`. Otherwise it gives a table. |
| Nutrition.TableStripped | pic2plate.py:153-157 | Every nutrient and amount in the table has no leading or trailing whitespace. |
| Nutrition.ExtractNutrition | pic2plate.py:140-163 | Applied to the fixed headings, the imperative handler block gives the outcome `NutritionOf` specifies. |
| Nutrition.BuildDict | pic2plate.py:148-153 | After the loop over the lines, the key order is `Keys(Entries(lines))` and the dictionary is `Dict(Entries(lines))`. |
| VideoLayout.PairingShowsAllInOrder | pic2plate.py:176-187 | The rows of a pairing show every result exactly once, in search order. |
| VideoLayout.LayoutRows | pic2plate.py:176-187 | The loop makes ceil(n/2) rows. Row k shows result 2k on the left, and result 2k+1 on the right when it exists. The rows show all results in order. |
| VideoLayout.Recommend | pic2plate.py:175-189 | The "no videos" message appears exactly when the answer has no results entry or an empty one. Otherwise the grid is the pairing of the results. |

## Left out

- The Streamlit page, widgets, CSS and markdown output are left out. They are rendering only.
- The Gemini configuration and `send_message` calls are left out. The model's answers are string parameters.
- The Tavily search call is left out. Its answer is an `Option<seq<Video>>`, with `None` when there is no `results` entry. The `max_results=4` bound belongs to the remote service and is not modelled.
- PIL image decoding and JPEG encoding are left out, as a foreign library.
- The pandas DataFrame is left out. The table is the ordered list of (nutrient, amount) rows passed to it.
- The prompt f-strings are left out. They are free text with no contract.
- The catch-all exception handler is left out. None of the modelled operations raises.
- `st.stop()` after the food check is left out. `NoFoodDetected` decides whether the flow stops.
- PyStr.Lower: lowercases ASCII letters only. Python's `lower()` also maps non-ASCII letters, which would need a Unicode case table to model, and it can change the length: U+0130 lowers to two characters. The food check is unaffected: the only non-ASCII characters that lower to ASCII are U+0130 (to "i" plus a combining dot) and U+212A (to "k"), and neither can complete "no food items", which holds no "k" and whose "i" is followed by "t", not a combining dot.
- PyStr.IsSpace: lists the code points for which Python's `str.isspace()` holds. This list is taken from the Unicode tables rather than computed.
