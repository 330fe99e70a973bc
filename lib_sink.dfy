/**
 * What the block renderer of the current version reports besides its text:
 * the title and subtitle (each set at most once), the footnotes to backpatch
 * (a dictionary from footnote key to payload) and the bibliography (entries
 * separated by a blank line). In `src/lib.ts` these live in variables that
 * closures of `handleElems` update; here they are one value the renderer
 * threads through, and the class of the conversion holds it in fields.
 */
module LibSink {
  import opened Wrappers
  import opened JsString
  import opened Html

  datatype Sink = Sink(
    title: Option<string>,
    subtitle: Option<string>,
    footnotes: map<string, string>,
    /** The footnote keys in the order they were first added. */
    keys: seq<string>,
    bibtex: Option<string>)

  const Fresh := Sink(None, None, map[], [], None)

  /** Every stored footnote is listed once in `keys`, and nothing else is. */
  ghost predicate Valid(s: Sink) {
    && (forall k :: k in s.footnotes <==> k in s.keys)
    && (forall i, j :: 0 <= i < j < |s.keys| ==> s.keys[i] != s.keys[j])
    && ProtoKey !in s.footnotes
  }

  /** The one key an assignment to a plain object ignores when the value is a string. */
  const ProtoKey := "__proto__"

  /** `addBibliographyEntry`: the first entry, or the entries so far, a blank line and the new one. */
  function AddBibliographyEntry(bibtex: Option<string>, entry: string): string {
    if Truthy(bibtex) then bibtex.value + "\n\n" + entry else entry
  }

  /**
   * `addFootnoteEntry`: `footnotes[key] = content`. A later write replaces the
   * payload but keeps the key's place; `__proto__` is not stored at all.
   */
  function AddFootnote(s: Sink, key: string, content: string): (r: Sink)
    ensures r.title == s.title && r.subtitle == s.subtitle && r.bibtex == s.bibtex
  {
    if key == ProtoKey then s
    else s.(footnotes := s.footnotes[key := content],
            keys := if key in s.footnotes then s.keys else s.keys + [key])
  }

  /** `setTitle`: each of the two may be set once. */
  function SetTitle(s: Sink, kind: TitleKind, value: string): (r: Result<Sink, Error>)
  {
    match kind
    case Title =>
      if Truthy(s.title) then Err(DuplicateTitle(Title, s.title.value, value))
      else Ok(s.(title := Some(value)))
    case Subtitle =>
      if Truthy(s.subtitle) then Err(DuplicateTitle(Subtitle, s.subtitle.value, value))
      else Ok(s.(subtitle := Some(value)))
  }

  /** The title or subtitle `kind` names. */
  function TitleOf(s: Sink, kind: TitleKind): Option<string> {
    if kind == Title then s.title else s.subtitle
  }

  /** The bibliography after adding `entries` one by one, starting from none. */
  function Bibliography(entries: seq<string>): Option<string> {
    if entries == [] then None
    else Some(AddBibliographyEntry(Bibliography(entries[..|entries| - 1]), entries[|entries| - 1]))
  }

  /** Adding non-empty entries one by one leaves them joined by blank lines. */
  lemma {:induction false} BibliographyJoins(entries: seq<string>)
    requires forall i :: 0 <= i < |entries| ==> entries[i] != ""
    ensures entries == [] ==> Bibliography(entries) == None
    ensures entries != [] ==> Bibliography(entries) == Some(Join(entries, "\n\n"))
  {
    if |entries| == 1 {
      assert entries[..0] == [];
    } else if |entries| > 1 {
      var init := entries[..|entries| - 1];
      BibliographyJoins(init);
      assert init[0] != "";
      assert |Join(init, "\n\n")| >= |init[0]|;
      JoinSnoc(init, entries[|entries| - 1], "\n\n");
      assert init + [entries[|entries| - 1]] == entries;
    }
  }

  /** Storing a footnote keeps the dictionary and its key list in step. */
  lemma AddFootnoteValid(s: Sink, key: string, content: string)
    requires Valid(s)
    ensures Valid(AddFootnote(s, key, content))
  {
    var r := AddFootnote(s, key, content);
    if key != ProtoKey && key !in s.footnotes {
      forall i, j | 0 <= i < j < |r.keys| ensures r.keys[i] != r.keys[j] {
        if j == |s.keys| {
          assert r.keys[i] == s.keys[i];
        }
      }
    }
  }

  /** After a store, the key holds the payload (unless it is `__proto__`) and every other key is untouched. */
  lemma AddFootnoteStores(s: Sink, key: string, content: string, other: string)
    requires other != key
    ensures key != ProtoKey ==> AddFootnote(s, key, content).footnotes[key] == content
    ensures key == ProtoKey ==> key !in AddFootnote(s, key, content).footnotes || s.footnotes[key] == AddFootnote(s, key, content).footnotes[key]
    ensures other in s.footnotes <==> other in AddFootnote(s, key, content).footnotes
    ensures other in s.footnotes ==> AddFootnote(s, key, content).footnotes[other] == s.footnotes[other]
  {
  }

  /** Of two stores under the same key the later one wins, and the key keeps its first place. */
  lemma LaterFootnoteWins(s: Sink, key: string, a: string, b: string)
    ensures AddFootnote(AddFootnote(s, key, a), key, b) == AddFootnote(s, key, b)
  {
  }

  /** A title (or subtitle) can be set once; the second attempt throws, naming both values. */
  lemma {:induction false} SecondTitleThrows(s: Sink, kind: TitleKind, first: string, second: string)
    requires !Truthy(TitleOf(s, kind)) && first != ""
    ensures SetTitle(s, kind, first).Ok?
    ensures TitleOf(SetTitle(s, kind, first).value, kind) == Some(first)
    ensures SetTitle(SetTitle(s, kind, first).value, kind, second) == Err(DuplicateTitle(kind, first, second))
  {
  }

  /** Setting one of the two never disturbs the other, nor the footnotes and bibliography. */
  lemma SetTitleKeepsRest(s: Sink, kind: TitleKind, value: string)
    requires SetTitle(s, kind, value).Ok?
    ensures var r := SetTitle(s, kind, value).value;
            && TitleOf(r, kind) == Some(value)
            && r.footnotes == s.footnotes && r.keys == s.keys && r.bibtex == s.bibtex
            && (kind == Title ==> r.subtitle == s.subtitle)
            && (kind == Subtitle ==> r.title == s.title)
  {
  }
}
