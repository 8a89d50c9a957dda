/**
 * The nutrition table of pic2plate.py (lines 140-163): the section of the
 * model's answer between two literal headings is cut out, split into lines,
 * and every `key: value` line is put into an insertion-ordered dictionary
 * whose items become the rows of the displayed table.
 */
module Nutrition {
  import opened Optional
  import opened PyStr

  const StartMarker: string := "Nutritional information per serving:"
  const EndMarker: string := "Alternative ingredient suggestions:"

  /** One row of the table: the 'Nutrient' and 'Amount' columns. */
  datatype Entry = Entry(nutrient: string, amount: string)

  /** The four messages the handler can end in. */
  datatype Outcome =
    | SectionMissing        // "Nutritional information section is missing."
    | EmptySection          // "No nutritional information found."
    | Unreadable            // "... not available in a readable format."
    | Table(rows: seq<Entry>)

  // ---------------------------------------------------------------------------
  // Locating the section
  // ---------------------------------------------------------------------------

  /** The stripped text between the first `startMarker` and the first
      `endMarker`; None when either `find` returns -1. */
  function Section(text: string, startMarker: string, endMarker: string): (r: Option<string>)
    ensures r.Some? ==> IsStripped(r.value) && |r.value| <= |text|
  {
    var start := Find(text, startMarker);
    var end := Find(text, endMarker);
    if start == -1 || end == -1 then None
    else Some(Strip(Slice(text, start + |startMarker|, end)))
  }

  /** No section, and so no table, when either heading is absent. */
  lemma SectionMissingIffMarkerAbsent(text: string, startMarker: string, endMarker: string)
    ensures Section(text, startMarker, endMarker).None? <==>
      (forall i :: !OccursAt(text, startMarker, i)) || (forall i :: !OccursAt(text, endMarker, i))
    ensures Section(text, startMarker, endMarker).None? <==>
      NutritionOf(text, startMarker, endMarker) == SectionMissing
  {
  }

  /** With both headings present, the section is exactly the stripped text
      after the first start heading and before the first end heading. */
  lemma SectionBetweenFirstMarkers(text: string, startMarker: string, endMarker: string, s: nat, e: nat)
    requires FirstOccurrence(text, startMarker, s) && FirstOccurrence(text, endMarker, e)
    requires s + |startMarker| <= e
    ensures Section(text, startMarker, endMarker) == Some(Strip(text[s + |startMarker|..e]))
  {
    FindIsFirstOccurrence(text, startMarker, s);
    FindIsFirstOccurrence(text, endMarker, e);
  }

  /** An end heading that starts no later than the end of the start heading
      gives an empty slice, hence an empty section and not a missing one. */
  lemma SectionEmptyWhenEndBeforeStart(text: string, startMarker: string, endMarker: string, s: nat, e: nat)
    requires FirstOccurrence(text, startMarker, s) && FirstOccurrence(text, endMarker, e)
    requires e <= s + |startMarker|
    ensures Section(text, startMarker, endMarker) == Some([])
    ensures NutritionOf(text, startMarker, endMarker) == EmptySection
  {
    FindIsFirstOccurrence(text, startMarker, s);
    FindIsFirstOccurrence(text, endMarker, e);
  }

  // ---------------------------------------------------------------------------
  // Lines and entries
  // ---------------------------------------------------------------------------

  /** A line with a ':' gives the stripped text before its first ':' and the
      stripped text after it; any other line gives nothing. */
  function ParseLine(line: string): (r: Option<Entry>)
    ensures r.None? <==> ':' !in line
    ensures r.Some? ==> IsStripped(r.value.nutrient) && IsStripped(r.value.amount)
    ensures r.Some? ==> ':' !in r.value.nutrient
  {
    if ':' in line then
      var (key, value) := SplitOnce(line, ':');
      StripWithin(key, ':');
      Some(Entry(Strip(key), Strip(value)))
    else None
  }

  /** Cutting a line at its first ':' is the only cut ParseLine makes; the
      value keeps every later ':'. */
  lemma ParseLineAtFirstColon(line: string, before: string, after: string)
    requires line == before + ":" + after && ':' !in before
    ensures ParseLine(line) == Some(Entry(Strip(before), Strip(after)))
  {
    SplitOnceUnique(line, ':', before, after);
  }

  /** A line written `key: value` gives exactly that pair, whatever colons
      the value holds: "A: b: c" gives the nutrient "A" and the amount "b: c". */
  lemma ValueKeepsLaterColons(key: string, value: string)
    requires ':' !in key && IsStripped(key) && IsStripped(value)
    ensures ParseLine(key + ": " + value) == Some(Entry(key, value))
  {
    var line := key + ": " + value;
    assert line == key + ":" + (" " + value);
    ParseLineAtFirstColon(line, key, " " + value);
    StripIdempotent(key);
    StripLeadingBlank(value);
  }

  /** Stripping a value written after one blank. */
  lemma StripLeadingBlank(v: string)
    requires IsStripped(v)
    ensures Strip(" " + v) == v
  {
    var s := " " + v;
    assert s[..1] == " " && s[1..] == v && s[1 + |v|..] == [];
    StripUnique(s, 1, v);
  }

  /** The entries of the lines that hold a ':', in line order; every
      nutrient and amount is stripped on both sides. */
  function Entries(lines: seq<string>): (r: seq<Entry>)
    ensures |r| <= |lines|
    ensures forall k :: 0 <= k < |r| ==> IsStripped(r[k].nutrient) && IsStripped(r[k].amount)
  {
    if lines == [] then []
    else
      var init := Entries(lines[..|lines| - 1]);
      match ParseLine(lines[|lines| - 1])
      case None => init
      case Some(e) => init + [e]
  }

  /** There is no entry exactly when no line holds a ':'. */
  lemma {:induction false} EntriesEmptyIffNoColon(lines: seq<string>)
    ensures Entries(lines) == [] <==> forall k :: 0 <= k < |lines| ==> ':' !in lines[k]
  {
    if lines != [] {
      var init := lines[..|lines| - 1];
      EntriesEmptyIffNoColon(init);
      assert forall k :: 0 <= k < |init| ==> init[k] == lines[k];
    }
  }

  /** Appending a line appends its entry, if it has one. */
  lemma EntriesSnoc(lines: seq<string>, n: nat)
    requires n < |lines|
    ensures Entries(lines[..n + 1]) ==
      match ParseLine(lines[n]) case None => Entries(lines[..n]) case Some(e) => Entries(lines[..n]) + [e]
  {
    assert lines[..n + 1][..n] == lines[..n];
  }

  // ---------------------------------------------------------------------------
  // The insertion-ordered dictionary
  // ---------------------------------------------------------------------------

  /** The dictionary's keys in insertion order: a key is appended the first
      time it is assigned and keeps its place afterwards. */
  function Keys(es: seq<Entry>): (r: seq<string>)
    ensures |r| <= |es|
    ensures r == [] <==> es == []
  {
    if es == [] then []
    else
      var init := Keys(es[..|es| - 1]);
      var k := es[|es| - 1].nutrient;
      if k in init then init else init + [k]
  }

  /** The dictionary's contents: assignment in entry order, so a later value
      replaces an earlier one. */
  function Dict(es: seq<Entry>): (r: map<string, string>)
    ensures |r| <= |es|
    ensures |r| == 0 <==> es == []
  {
    if es == [] then map[]
    else
      var last := es[|es| - 1];
      Dict(es[..|es| - 1])[last.nutrient := last.amount]
  }

  /** `k` is the nutrient of some entry. */
  predicate Named(es: seq<Entry>, k: string) {
    exists i :: 0 <= i < |es| && es[i].nutrient == k
  }

  /** The keys, the dictionary's domain and the named nutrients agree. */
  lemma {:induction false} KeysAreDictDomain(es: seq<Entry>, k: string)
    ensures k in Keys(es) <==> k in Dict(es)
    ensures k in Dict(es) <==> Named(es, k)
  {
    if es != [] {
      var init := es[..|es| - 1];
      KeysAreDictDomain(init, k);
      if Named(es, k) && es[|es| - 1].nutrient != k {
        var i :| 0 <= i < |es| && es[i].nutrient == k;
        assert init[i].nutrient == k;
      }
      if Named(init, k) {
        var i :| 0 <= i < |init| && init[i].nutrient == k;
        assert es[i].nutrient == k;
      }
    }
  }

  /** Every key appears once. */
  lemma {:induction false} KeysDistinct(es: seq<Entry>)
    ensures forall i, j :: 0 <= i < j < |Keys(es)| ==> Keys(es)[i] != Keys(es)[j]
  {
    if es != [] {
      KeysDistinct(es[..|es| - 1]);
    }
  }

  /** Keys are ordered by first appearance: whenever a later key is named by
      an entry, the earlier key has already been named by one before it. */
  lemma {:induction false} KeysInFirstAppearanceOrder(es: seq<Entry>, i: nat, j: nat, q: nat)
    requires i < j < |Keys(es)| && q < |es| && es[q].nutrient == Keys(es)[j]
    ensures Named(es[..q], Keys(es)[i])
  {
    var init := es[..|es| - 1];
    var ks := Keys(init);
    KeysDistinct(es);
    if q < |es| - 1 {
      assert es[..q] == init[..q];
      KeysAreDictDomain(init, es[q].nutrient);
      assert init[q].nutrient == es[q].nutrient;
      assert Named(init, es[q].nutrient);
      assert j < |ks| by {
        var jj :| 0 <= jj < |ks| && ks[jj] == Keys(es)[j];
        assert Keys(es)[jj] == ks[jj];
      }
      KeysInFirstAppearanceOrder(init, i, j, q);
    } else {
      // the last entry names key j; key i was named among the others
      var ki := Keys(es)[i];
      if j < |ks| {
        KeysAreDictDomain(init, es[q].nutrient);
        var q' :| 0 <= q' < |init| && init[q'].nutrient == es[q].nutrient;
        KeysInFirstAppearanceOrder(init, i, j, q');
        var p :| 0 <= p < q' && init[..q'][p].nutrient == ki;
        assert es[..q][p].nutrient == ki;
      } else {
        assert ki == ks[i];
        KeysAreDictDomain(init, ki);
        var p :| 0 <= p < |init| && init[p].nutrient == ki;
        assert es[..q][p].nutrient == ki;
      }
    }
  }

  /** Last write wins: the entry after which its nutrient is never named
      again supplies that nutrient's amount. */
  lemma {:induction false} DictLastWins(es: seq<Entry>, q: nat)
    requires q < |es|
    requires forall q' :: q < q' < |es| ==> es[q'].nutrient != es[q].nutrient
    ensures es[q].nutrient in Dict(es) && Dict(es)[es[q].nutrient] == es[q].amount
  {
    if q < |es| - 1 {
      var init := es[..|es| - 1];
      assert init[q] == es[q];
      DictLastWins(init, q);
    }
  }

  /** One more assignment `d[e.nutrient] = e.amount`. */
  lemma DictSnoc(es: seq<Entry>, e: Entry)
    ensures Keys(es + [e]) == if e.nutrient in Keys(es) then Keys(es) else Keys(es) + [e.nutrient]
    ensures Dict(es + [e]) == Dict(es)[e.nutrient := e.amount]
  {
    assert (es + [e])[..|es|] == es;
  }

  /** The dictionary is empty exactly when there is no entry. */
  lemma DictEmptyIffNoEntries(es: seq<Entry>)
    ensures |Dict(es)| == 0 <==> es == []
  {
    if es != [] {
      var last := es[|es| - 1];
      assert last.nutrient in Dict(es);
    }
  }

  /** The last entry naming `k`. */
  lemma LastEntryOf(es: seq<Entry>, k: string) returns (q: nat)
    requires k in Dict(es)
    ensures q < |es| && es[q].nutrient == k
    ensures forall q' :: q < q' < |es| ==> es[q'].nutrient != k
  {
    var last := es[|es| - 1];
    if last.nutrient == k {
      q := |es| - 1;
    } else {
      var init := es[..|es| - 1];
      q := LastEntryOf(init, k);
      assert es[q] == init[q];
    }
  }

  /** Two lines naming the same nutrient leave one row, with the second
      amount: "Fat: 10g" then "Fat: 12g" gives the single row Fat, 12g. */
  lemma DuplicateNutrientKeepsLastAmount(key: string, first: string, second: string)
    requires ':' !in key && IsStripped(key) && IsStripped(first) && IsStripped(second)
    ensures Rows(Entries([key + ": " + first, key + ": " + second])) == [Entry(key, second)]
  {
    var l1, l2 := key + ": " + first, key + ": " + second;
    var e1, e2 := Entry(key, first), Entry(key, second);
    assert Entries([l1, l2]) == [e1, e2] by {
      ValueKeepsLaterColons(key, first);
      ValueKeepsLaterColons(key, second);
      EntriesWhenAllParse([l1, l2], [e1, e2]);
    }
    TwoEntryRows(e1, e2);
  }

  /** Lines that each hold a ':' give one entry apiece, in order. */
  lemma {:induction false} EntriesWhenAllParse(lines: seq<string>, es: seq<Entry>)
    requires |lines| == |es|
    requires forall k {:trigger ParseLine(lines[k])} :: 0 <= k < |lines| ==> ParseLine(lines[k]) == Some(es[k])
    ensures Entries(lines) == es
  {
    if lines != [] {
      var n := |lines| - 1;
      EntriesWhenAllParse(lines[..n], es[..n]);
      EntriesSnocEntry(lines, n, es[n]);
      LastSplit(lines);
      LastSplit(es);
    }
  }

  /** A line that parses appends its entry. */
  lemma EntriesSnocEntry(lines: seq<string>, n: nat, e: Entry)
    requires n < |lines| && ParseLine(lines[n]) == Some(e)
    ensures Entries(lines[..n + 1]) == Entries(lines[..n]) + [e]
  {
    EntriesSnoc(lines, n);
  }

  /** A non-empty sequence is its front followed by its last element. */
  lemma LastSplit<T>(s: seq<T>)
    requires s != []
    ensures s[..|s| - 1] + [s[|s| - 1]] == s && s[..|s|] == s
  {
  }

  lemma TwoEntryRows(e1: Entry, e2: Entry)
    requires e1.nutrient == e2.nutrient
    ensures Rows([e1, e2]) == [e2]
  {
    DictSnoc([], e1);
    assert [] + [e1] == [e1];
    DictSnoc([e1], e2);
    assert [e1] + [e2] == [e1, e2];
  }

  /** `list(d.items())` for a dictionary whose key order is `keys`. */
  function Items(keys: seq<string>, d: map<string, string>): (r: seq<Entry>)
    requires forall i :: 0 <= i < |keys| ==> keys[i] in d
    ensures |r| == |keys|
    ensures forall i :: 0 <= i < |r| ==> r[i] == Entry(keys[i], d[keys[i]])
  {
    if keys == [] then [] else [Entry(keys[0], d[keys[0]])] + Items(keys[1..], d)
  }

  /** The rows of the table built from the entries `es`. */
  function Rows(es: seq<Entry>): (r: seq<Entry>)
    ensures |r| == |Keys(es)|
    ensures forall i :: 0 <= i < |r| ==>
      r[i].nutrient == Keys(es)[i] && Keys(es)[i] in Dict(es) && r[i].amount == Dict(es)[Keys(es)[i]]
  {
    var ks := Keys(es);
    forall i | 0 <= i < |ks| ensures ks[i] in Dict(es) {
      KeysAreDictDomain(es, ks[i]);
    }
    Items(ks, Dict(es))
  }

  // ---------------------------------------------------------------------------
  // The whole extraction
  // ---------------------------------------------------------------------------

  /** What the handler shows for the model's answer `text`, given the two
      headings that delimit the section. */
  function NutritionOf(text: string, startMarker: string, endMarker: string): (r: Outcome)
    ensures r.SectionMissing? <==> Section(text, startMarker, endMarker).None?
    ensures r.Table? ==> |r.rows| > 0
  {
    match Section(text, startMarker, endMarker)
    case None => SectionMissing
    case Some(section) =>
      if section == [] then EmptySection
      else
        var es := Entries(Split(section, '\n'));
        if es == [] then Unreadable else Table(Rows(es))
  }

  /** A non-empty section is unreadable exactly when it holds no ':' at all,
      and gives a table otherwise. */
  lemma UnreadableIffNoColon(text: string, startMarker: string, endMarker: string)
    requires Section(text, startMarker, endMarker).Some?
    requires Section(text, startMarker, endMarker).value != []
    ensures NutritionOf(text, startMarker, endMarker) == Unreadable <==>
      ':' !in Section(text, startMarker, endMarker).value
    ensures NutritionOf(text, startMarker, endMarker).Table? <==>
      ':' in Section(text, startMarker, endMarker).value
  {
    var section := Section(text, startMarker, endMarker).value;
    var lines := Split(section, '\n');
    EntriesEmptyIffNoColon(lines);
    JoinContains(lines, '\n', ':');
  }

  /** Every nutrient and amount in the table is stripped on both sides. */
  lemma TableStripped(text: string, startMarker: string, endMarker: string)
    requires NutritionOf(text, startMarker, endMarker).Table?
    ensures forall i :: 0 <= i < |NutritionOf(text, startMarker, endMarker).rows| ==>
      IsStripped(NutritionOf(text, startMarker, endMarker).rows[i].nutrient) &&
      IsStripped(NutritionOf(text, startMarker, endMarker).rows[i].amount)
  {
    var es := Entries(Split(Section(text, startMarker, endMarker).value, '\n'));
    var rows := Rows(es);
    forall i | 0 <= i < |rows| ensures IsStripped(rows[i].nutrient) && IsStripped(rows[i].amount) {
      var q := LastEntryOf(es, rows[i].nutrient);
      DictLastWins(es, q);
    }
  }

  /** The handler's nutrition block: the section between the two fixed
      headings, the dictionary loop and the final four-way branch. */
  method ExtractNutrition(text: string) returns (outcome: Outcome)
    ensures outcome == NutritionOf(text, StartMarker, EndMarker)
  {
    var section := Section(text, StartMarker, EndMarker);
    if section.None? {
      return SectionMissing;
    }
    var info := section.value;
    if info == [] {
      return EmptySection;
    }
    var lines := Split(info, '\n');
    var keys, dict := BuildDict(lines);
    ghost var es := Entries(lines);
    DictEmptyIffNoEntries(es);
    if |dict| == 0 {
      return Unreadable;
    }
    forall i | 0 <= i < |keys| ensures keys[i] in dict {
      KeysAreDictDomain(es, keys[i]);
    }
    outcome := Table(Items(keys, dict));
  }

  /** The loop over the section's lines: `nutrition_dict[key.strip()] =
      value.strip()` for every line with a ':'; `keys` records the
      dictionary's insertion order. */
  method BuildDict(lines: seq<string>) returns (keys: seq<string>, dict: map<string, string>)
    ensures keys == Keys(Entries(lines))
    ensures dict == Dict(Entries(lines))
  {
    keys, dict := [], map[];
    for n := 0 to |lines|
      invariant keys == Keys(Entries(lines[..n]))
      invariant dict == Dict(Entries(lines[..n]))
    {
      var line := lines[n];
      EntriesSnoc(lines, n);
      if ':' in line {
        var (key, value) := SplitOnce(line, ':');
        key, value := Strip(key), Strip(value);
        ghost var es := Entries(lines[..n]);
        KeysAreDictDomain(es, key);
        DictSnoc(es, Entry(key, value));
        if key !in dict {
          keys := keys + [key];
        }
        dict := dict[key := value];
      }
    }
    assert lines[..|lines|] == lines;
  }
}
