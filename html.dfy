/**
 * The parsed document tree the converter walks (the node shapes the HTML
 * parser produces), and the errors the converter throws.
 */
module Html {
  import opened Wrappers

  datatype Attribute = Attribute(key: string, value: string)

  /** A parsed node; children are in reading order. */
  datatype Node =
    | Text(content: string)
    | Element(tagName: string, attributes: seq<Attribute>, children: seq<Node>)
    | Comment(content: string)

  /** The exceptions the converter throws; every one aborts the whole conversion. */
  datatype Error =
    | UnsupportedTag(tag: string)
      /** The block-mode message of the current version, which also quotes the element's text. */
    | UnsupportedTagWithContent(tag: string, content: string)
    | UnsupportedSelector(selector: string)
    | ImgWithoutSrc
    | DuplicateTitle(kind: TitleKind, existing: string, value: string)
      /** The earliest version's message, which names the kind but not the values. */
    | DuplicateTitleBare(kind: TitleKind)
    | MissingLatex
    | MissingTitle
    | MissingBibtex
      /** A property read on `undefined`: an `hr` without attributes, a table without rows. */
    | TypeError(what: string)

  datatype TitleKind = Title | Subtitle

  /** `attributes.find(attr => attr.key == key)`, as the found attribute's value. */
  function FindAttr(attrs: seq<Attribute>, key: string): (r: Option<string>)
    ensures r.None? <==> forall i :: 0 <= i < |attrs| ==> attrs[i].key != key
    ensures r.Some? ==> exists i :: 0 <= i < |attrs| && attrs[i].key == key && attrs[i].value == r.value
                                    && forall j :: 0 <= j < i ==> attrs[j].key != key
  {
    if attrs == [] then None
    else if attrs[0].key == key then Some(attrs[0].value)
    else
      var r := FindAttr(attrs[1..], key);
      assert r.Some? ==> exists i :: 1 <= i < |attrs| && attrs[i].key == key && attrs[i].value == r.value
                                      && forall j :: 0 <= j < i ==> attrs[j].key != key by {
        if r.Some? {
          var i :| 0 <= i < |attrs[1..]| && attrs[1..][i].key == key && attrs[1..][i].value == r.value
                   && forall j :: 0 <= j < i ==> attrs[1..][j].key != key;
          assert attrs[i + 1].key == key && forall j :: 0 <= j < i + 1 ==> attrs[j].key != key by {
            forall j | 0 <= j < i + 1 ensures attrs[j].key != key {
              if j > 0 { assert attrs[j] == attrs[1..][j - 1]; }
            }
          }
        }
      }
      r
  }

  /** `x || ''` on a rendering result: `undefined` becomes the empty string. */
  function OrEmpty(o: Option<string>): string {
    if o.Some? then o.value else ""
  }

  /** JavaScript truthiness of a `string | undefined`. */
  predicate Truthy(o: Option<string>) {
    o.Some? && o.value != ""
  }
}
