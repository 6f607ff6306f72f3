/**
  The result summary of one update run: notes and warnings collected while the run
  proceeds, a failure that short-circuits everything, and the single notification
  composed at the end. Both revisions of the class are covered; they differ only in how
  the notes section is rendered (NoteStyle).
 */
module Summary {
  import opened OsmData

  datatype MessageType = Information | Warning | Error

  /** One notification as it would be shown to the user. */
  datatype Notification = Notification(message: string, kind: MessageType)

  /**
    Current: a single note is shown bare, several as a plain list.
    Labelled (older revision): "Note: {0}" for one, "Notes:" and a list for several.
   */
  datatype NoteStyle = Current | Labelled

  const EmptyMessage := "Action completed without notes/warnings"
  const Separator := "<br />"

  function Item(x: string): string {
    "<li>" + x + "</li>"
  }

  /** The concatenated list items, in the order of `items`. */
  function ListItems(items: seq<string>): string {
    if items == [] then "" else ListItems(items[..|items| - 1]) + Item(items[|items| - 1])
  }

  function HtmlList(items: seq<string>): string {
    "<ul>" + ListItems(items) + "</ul>"
  }

  function WarningSection(warnings: seq<string>): seq<string> {
    if warnings == [] then []
    else if |warnings| == 1 then ["Warning: " + warnings[0]]
    else ["Warnings:", HtmlList(warnings)]
  }

  function NoteSection(style: NoteStyle, notes: seq<string>): seq<string> {
    if notes == [] then []
    else if |notes| == 1 then [if style == Current then notes[0] else "Note: " + notes[0]]
    else if style == Current then [HtmlList(notes)]
    else ["Notes:", HtmlList(notes)]
  }

  /** The message parts: the warning section first, then the note section. */
  function MessageParts(style: NoteStyle, warnings: seq<string>, notes: seq<string>): seq<string> {
    WarningSection(warnings) + NoteSection(style, notes)
  }

  /** The notification sendNotification shows for a run that did not fail. */
  function Compose(style: NoteStyle, warnings: seq<string>, notes: seq<string>): (n: Notification)
    ensures n.kind == Warning <==> warnings != []
    ensures n.kind != Error
  {
    if notes == [] && warnings == [] then Notification(EmptyMessage, Information)
    else Notification(Join(MessageParts(style, warnings, notes), Separator),
                      if warnings == [] then Information else Warning)
  }

  /** The StringBuilder loop rendering a list of messages as one `<ul>`. */
  method BuildList(items: seq<string>) returns (s: string)
    ensures s == HtmlList(items)
  {
    s := "<ul>";
    for i := 0 to |items|
      invariant s == "<ul>" + ListItems(items[..i])
    {
      assert items[..i + 1][..i] == items[..i];
      s := s + "<li>";
      s := s + items[i];
      s := s + "</li>";
    }
    assert items[..|items|] == items;
    s := s + "</ul>";
  }

  class ResultSummary {
    const style: NoteStyle
    var hasFailed: bool
    /** Notes about the result, in the order they were added. */
    var notes: seq<string>
    /** Warnings about rough edges in the result. */
    var warnings: seq<string>
    /** The notifications shown so far, in order. */
    var shown: seq<Notification>

    constructor (style: NoteStyle)
      ensures this.style == style
      ensures !hasFailed && notes == [] && warnings == [] && shown == []
    {
      this.style := style;
      hasFailed := false;
      notes := [];
      warnings := [];
      shown := [];
    }

    method AddNote(message: string)
      modifies this
      ensures notes == old(notes) + [message]
      ensures hasFailed == old(hasFailed) && warnings == old(warnings) && shown == old(shown)
    {
      notes := notes + [message];
    }

    /** As written in both revisions, a warning is appended to the notes. */
    method AddWarning(message: string)
      modifies this
      ensures notes == old(notes) + [message]
      ensures hasFailed == old(hasFailed) && warnings == old(warnings) && shown == old(shown)
    {
      notes := notes + [message];
    }

    /** Marks the run failed and shows the failure message straight away. */
    method Failed(message: string)
      modifies this
      ensures hasFailed
      ensures shown == old(shown) + [Notification(message, Error)]
      ensures notes == old(notes) && warnings == old(warnings)
    {
      hasFailed := true;
      shown := shown + [Notification(message, Error)];
    }

    /** Shows the composed summary, or nothing once the run has failed. */
    method SendNotification()
      modifies this
      ensures hasFailed == old(hasFailed) && notes == old(notes) && warnings == old(warnings)
      ensures shown == old(shown) + (if hasFailed then [] else [Compose(style, warnings, notes)])
    {
      if hasFailed {
        return;
      }
      if notes == [] && warnings == [] {
        shown := shown + [Notification(EmptyMessage, Information)];
        return;
      }
      var result: seq<string> := [];
      if warnings != [] {
        if |warnings| == 1 {
          result := result + ["Warning: " + warnings[0]];
        } else {
          result := result + ["Warnings:"];
          var list := BuildList(warnings);
          result := result + [list];
        }
      }
      if notes != [] {
        if |notes| == 1 {
          result := result + [if style == Current then notes[0] else "Note: " + notes[0]];
        } else {
          if style == Labelled {
            result := result + ["Notes:"];
          }
          var list := BuildList(notes);
          result := result + [list];
        }
      }
      assert result == MessageParts(style, warnings, notes);
      var kind := if warnings == [] then Information else Warning;
      shown := shown + [Notification(Join(result, Separator), kind)];
    }
  }

  // ---- Properties of the rendering ----

  lemma {:induction false} ListItemsAppend(a: seq<string>, b: seq<string>)
    ensures ListItems(a + b) == ListItems(a) + ListItems(b)
    decreases |b|
  {
    if b == [] {
      assert a + b == a;
    } else {
      var b' := b[..|b| - 1];
      var last := b[|b| - 1];
      ListItemsAppend(a, b');
      assert (a + b)[..|a + b| - 1] == a + b';
      assert (a + b)[|a + b| - 1] == last;
      calc {
        ListItems(a + b);
        ListItems(a + b') + Item(last);
        ListItems(a) + ListItems(b') + Item(last);
        ListItems(a) + (ListItems(b') + Item(last));
        ListItems(a) + ListItems(b);
      }
    }
  }

  lemma {:induction false} JoinAppend(a: seq<string>, b: seq<string>, sep: string)
    requires a != [] && b != []
    ensures Join(a + b, sep) == Join(a, sep) + sep + Join(b, sep)
    decreases |b|
  {
    if |b| == 1 {
      assert (a + b)[..|a + b| - 1] == a;
    } else {
      var b' := b[..|b| - 1];
      JoinAppend(a, b', sep);
      assert (a + b)[..|a + b| - 1] == a + b';
    }
  }

  /** The warning section is rendered ahead of the note section, separated by one break. */
  lemma WarningsBeforeNotes(style: NoteStyle, warnings: seq<string>, notes: seq<string>)
    requires warnings != [] && notes != []
    ensures Compose(style, warnings, notes).message
         == Join(WarningSection(warnings), Separator) + Separator + Join(NoteSection(style, notes), Separator)
  {
    JoinAppend(WarningSection(warnings), NoteSection(style, notes), Separator);
  }

  /** Without warnings the message is the note section alone (one bare note in the current style). */
  lemma NotesOnlyMessage(style: NoteStyle, notes: seq<string>)
    requires notes != []
    ensures Compose(style, [], notes).message == Join(NoteSection(style, notes), Separator)
    ensures Compose(style, [], notes).kind == Information
    ensures |notes| == 1 ==>
      Compose(style, [], notes).message == (if style == Current then notes[0] else "Note: " + notes[0])
  {
    assert MessageParts(style, [], notes) == NoteSection(style, notes);
  }

  // ---- The list rendering can be read back: one item per message, in order ----

  predicate NoMarkup(x: string) {
    forall i :: 0 <= i < |x| ==> x[i] != '<'
  }

  /** Index of the first '<' in s, or |s| when there is none. */
  function IndexOfLt(s: string): (k: nat)
    ensures k <= |s|
    ensures forall i :: 0 <= i < k ==> s[i] != '<'
    ensures k < |s| ==> s[k] == '<'
  {
    if s == [] then 0 else if s[0] == '<' then 0 else 1 + IndexOfLt(s[1..])
  }

  function ParseItems(s: string): Option<seq<string>>
    decreases |s|
  {
    if s == [] then Some([])
    else if !StartsWith(s, "<li>") then None
    else
      var rest := s[4..];
      var k := IndexOfLt(rest);
      if !StartsWith(rest[k..], "</li>") then None
      else match ParseItems(rest[k + 5..])
        case None => None
        case Some(tail) => Some([rest[..k]] + tail)
  }

  function ParseHtmlList(s: string): Option<seq<string>> {
    if |s| < 9 || !StartsWith(s, "<ul>") || s[|s| - 5..] != "</ul>" then None
    else ParseItems(s[4..|s| - 5])
  }

  lemma IndexOfLtItem(x: string, tail: string)
    requires NoMarkup(x)
    ensures IndexOfLt(x + "</li>" + tail) == |x|
  {
    var s := x + "</li>" + tail;
    assert s[|x|] == '<';
    assert forall i :: 0 <= i < |x| ==> s[i] == x[i];
  }

  /** Reading one item off the front of a rendering. */
  lemma ParseItemsCons(x: string, t: string)
    requires NoMarkup(x)
    ensures ParseItems(Item(x) + t) == match ParseItems(t)
                                        case None => None
                                        case Some(tail) => Some([x] + tail)
  {
    var s := Item(x) + t;
    var rest := s[4..];
    assert rest == x + "</li>" + t;
    IndexOfLtItem(x, t);
    assert rest[|x|..] == "</li>" + t;
    assert rest[|x| + 5..] == t;
    assert rest[..|x|] == x;
  }

  lemma {:induction false} ParseListItems(items: seq<string>)
    requires forall i :: 0 <= i < |items| ==> NoMarkup(items[i])
    ensures ParseItems(ListItems(items)) == Some(items)
    decreases |items|
  {
    if items != [] {
      var x, tail := items[0], items[1..];
      ListItemsAppend([x], tail);
      assert [x] + tail == items;
      assert ListItems([x]) == Item(x) by { assert [x][..0] == []; }
      ParseListItems(tail);
      ParseItemsCons(x, ListItems(tail));
    }
  }

  /**
    A rendered list of markup-free messages reads back as exactly those messages, in
    order: one `<li>` per message and nothing else.
   */
  lemma HtmlListRoundTrip(items: seq<string>)
    requires forall i :: 0 <= i < |items| ==> NoMarkup(items[i])
    ensures ParseHtmlList(HtmlList(items)) == Some(items)
  {
    var s := HtmlList(items);
    assert s[4..|s| - 5] == ListItems(items);
    ParseListItems(items);
  }
}
