/** The error message the manual-analysis client builds from a failed HTTP
    reply: the status line, or the server's `detail` when it is a non-empty
    string, or a "Validation error" list when it is an array of validation
    items. */
module Replies {
  import opened Wrappers
  import Text

  /** One element of a `detail` array: a string, or an object whose `loc`
      path (`None` when absent) and `msg` are used when both are truthy,
      otherwise its JSON text. */
  datatype DetailItem =
    | ItemString(text: string)
    | ItemObject(loc: Option<seq<string>>, msg: string, json: string)

  /** The `detail` field of an error body: absent, null or an unreadable body
      is `NoDetail`; a value that is neither string nor array is shown by its
      string conversion. */
  datatype Detail =
    | NoDetail
    | DetailString(text: string)
    | DetailArray(items: seq<DetailItem>)
    | DetailOther(shown: string)

  const StatusPrefix: string := "HTTP error! status: "
  const ValidationPrefix: string := "Validation error: "

  /** `parts.join(sep)`. */
  function Join(parts: seq<string>, sep: string): (r: string)
    ensures |parts| == 1 ==> r == parts[0]
  {
    if |parts| == 0 then ""
    else if |parts| == 1 then parts[0]
    else Join(parts[..|parts| - 1], sep) + sep + parts[|parts| - 1]
  }

  /** The text of one validation item. */
  function ItemText(item: DetailItem): string {
    match item
    case ItemString(t) => t
    case ItemObject(loc, msg, json) =>
      if msg != "" && loc.Some? then Join(loc.value, ".") + ": " + msg else json
  }

  function ItemTexts(items: seq<DetailItem>): (r: seq<string>)
    ensures |r| == |items| && forall i :: 0 <= i < |items| ==> r[i] == ItemText(items[i])
  {
    seq(|items|, i requires 0 <= i < |items| => ItemText(items[i]))
  }

  /** The message thrown for a reply that is not ok. */
  function HttpErrorMessage(status: nat, detail: Detail): (m: string)
    ensures detail.NoDetail? || detail == DetailString("") ==>
      m == StatusPrefix + Text.NatToString(status)
    ensures detail.DetailString? && detail.text != "" ==> m == detail.text
    ensures detail.DetailArray? ==>
      m == ValidationPrefix + Join(ItemTexts(detail.items), "; ")
    ensures detail.DetailOther? ==> m == detail.shown
  {
    match detail
    case NoDetail => StatusPrefix + Text.NatToString(status)
    case DetailString(t) => if t == "" then StatusPrefix + Text.NatToString(status) else t
    case DetailArray(items) => ValidationPrefix + Join(ItemTexts(items), "; ")
    case DetailOther(shown) => shown
  }

  /** Without a usable `detail` the message names the status, and different
      statuses give different messages. */
  lemma StatusMessagesDiffer(s1: nat, s2: nat)
    requires s1 != s2
    ensures HttpErrorMessage(s1, NoDetail) != HttpErrorMessage(s2, NoDetail)
  {
    var a, b := Text.NatToString(s1), Text.NatToString(s2);
    if StatusPrefix + a == StatusPrefix + b {
      assert a == (StatusPrefix + a)[|StatusPrefix|..];
      assert b == (StatusPrefix + b)[|StatusPrefix|..];
      Text.NatToStringRoundTrip(s1);
      Text.NatToStringRoundTrip(s2);
    }
  }

  /** Appending a validation item appends "; " and its text. */
  lemma ValidationMessageAppend(status: nat, items: seq<DetailItem>, item: DetailItem)
    requires |items| > 0
    ensures HttpErrorMessage(status, DetailArray(items + [item])) ==
      HttpErrorMessage(status, DetailArray(items)) + "; " + ItemText(item)
  {
    var ts := ItemTexts(items + [item]);
    assert ts[..|ts| - 1] == ItemTexts(items);
  }

  /** A pydantic-style item `{loc: ["body", "vertical_lines"], msg}` reads as
      "body.vertical_lines: msg"; an item with an empty `msg` falls back to
      its JSON text. */
  lemma LocatedItemText(msg: string, json: string)
    ensures msg != "" ==>
      ItemText(ItemObject(Some(["body", "vertical_lines"]), msg, json)) == "body.vertical_lines: " + msg
    ensures ItemText(ItemObject(Some(["body"]), "", json)) == json
  {
    assert ["body", "vertical_lines"][..1] == ["body"];
  }
}
