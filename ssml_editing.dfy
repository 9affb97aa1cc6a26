/** `insertSsmlTag` (script.js:310-342): splices a generated SSML tag into
    the SSML textarea at its selection and places the cursor. */
module SsmlEditing {
  import opened Wrappers

  const BREAK: string := "break"
  /** Stands in for an empty selection inside a wrapping tag. */
  const PLACEHOLDER: string := "text"

  function Opening(tag: string, params: string): string {
    "<" + tag + " " + params + ">"
  }

  function Closing(tag: string): (r: string)
    ensures |r| == |tag| + 3
  {
    "</" + tag + ">"
  }

  /** The self-closing form used for `break` (script.js:319). */
  function SelfClosing(tag: string, params: string): string {
    "<" + tag + " " + params + "/>"
  }

  /** What goes between the tags: the selected text, or the placeholder
      when nothing is selected (`selectedText || 'text'`). */
  function Content(selected: string): (r: string)
    ensures r != [] && (selected == [] ==> |r| == |PLACEHOLDER|)
  {
    if selected == [] then PLACEHOLDER else selected
  }

  /** The string spliced in for `tag` over the selected text (script.js:316-322). */
  function Markup(tag: string, params: string, selected: string): (m: string)
    ensures tag != BREAK ==> |m| == |Opening(tag, params)| + |Content(selected)| + |tag| + 3
  {
    if tag == BREAK then SelfClosing(tag, params)
    else Opening(tag, params) + Content(selected) + Closing(tag)
  }

  /** The new textarea value and, when the script sets one, the collapsed
      cursor position. */
  datatype Insertion = Insertion(value: string, cursor: Option<nat>)

  /** The computation of `insertSsmlTag` on the selection `[start, end)`:
      the markup replaces the selection and the text on either side is
      kept. A cursor is set for `break` and for an empty selection, never
      for a wrapping tag over selected text, and always within the value. */
  function InsertTag(value: string, start: nat, end: nat, tag: string, params: string): (r: Insertion)
    requires start <= end <= |value|
    ensures var m := Markup(tag, params, value[start..end]);
            && |r.value| == |value| - (end - start) + |m|
            && r.value[..start] == value[..start]
            && r.value[start..start + |m|] == m
            && r.value[start + |m|..] == value[end..]
    ensures r.cursor.Some? <==> tag == BREAK || start == end
    ensures r.cursor.Some? ==> r.cursor.value <= |r.value|
  {
    var selected := value[start..end];
    var inserted := Markup(tag, params, selected);
    var newValue := value[..start] + inserted + value[end..];
    var newCursor := start + |inserted|;
    var cursor :=
      if tag == BREAK then Some(newCursor)
      else if selected == [] then Some(newCursor - (|tag| + 3))
      else None;
    assert newValue[start..start + |inserted|] == inserted;
    assert newValue[start + |inserted|..] == value[end..];
    Insertion(newValue, cursor)
  }

  /** `break` replaces the selection with `<break params/>` and leaves the
      cursor right after it, where the old text resumes. */
  lemma BreakCursorAfterTag(value: string, start: nat, end: nat, params: string)
    requires start <= end <= |value|
    ensures var r := InsertTag(value, start, end, BREAK, params);
            var c := start + |SelfClosing(BREAK, params)|;
            && r.cursor == Some(c)
            && r.value[..c] == value[..start] + SelfClosing(BREAK, params)
            && r.value[c..] == value[end..]
  {
    var r := InsertTag(value, start, end, BREAK, params);
    var c := start + |SelfClosing(BREAK, params)|;
    assert r.value[..c] == r.value[..start] + r.value[start..c];
  }

  /** Where the three parts of `open + content + close` lie once it is
      spliced in at `start`. */
  lemma ThreePartLayout(v: string, start: nat, open: string, content: string, close: string)
    requires start + |open| + |content| + |close| <= |v|
    requires v[start..start + |open| + |content| + |close|] == open + content + close
    ensures v[start..start + |open|] == open
    ensures v[start + |open|..start + |open| + |content|] == content
    ensures v[start + |open| + |content|..start + |open| + |content| + |close|] == close
  {
    var m := open + content + close;
    var a, b := |open|, |open| + |content|;
    forall n | 0 <= n < a ensures v[start..start + a][n] == open[n] {
      assert v[start + n] == m[n];
    }
    forall n | 0 <= n < |content| ensures v[start + a..start + b][n] == content[n] {
      assert v[start + a + n] == m[a + n];
    }
    forall n | 0 <= n < |close| ensures v[start + b..start + b + |close|][n] == close[n] {
      assert v[start + b + n] == m[b + n];
    }
  }

  /** A wrapping tag over an empty selection wraps the placeholder and
      leaves the cursor at the end of it, just before the closing tag. */
  lemma EmptySelectionCursorBeforeClosing(value: string, pos: nat, tag: string, params: string)
    requires pos <= |value| && tag != BREAK
    ensures var r := InsertTag(value, pos, pos, tag, params);
            var o := pos + |Opening(tag, params)|;
            var c := o + |PLACEHOLDER|;
            && r.cursor == Some(c)
            && c + |tag| + 3 <= |r.value|
            && r.value[pos..o] == Opening(tag, params)
            && r.value[o..c] == PLACEHOLDER
            && r.value[c..c + |tag| + 3] == Closing(tag)
  {
    EmptySelectionCursor(value, pos, tag, params);
    EmptySelectionWrapsPlaceholder(value, pos, tag, params);
  }

  lemma EmptySelectionCursor(value: string, pos: nat, tag: string, params: string)
    requires pos <= |value| && tag != BREAK
    ensures InsertTag(value, pos, pos, tag, params).cursor
            == Some(pos + |Opening(tag, params)| + |PLACEHOLDER|)
  {
    assert value[pos..pos] == [];
  }

  lemma EmptySelectionWrapsPlaceholder(value: string, pos: nat, tag: string, params: string)
    requires pos <= |value| && tag != BREAK
    ensures var v := InsertTag(value, pos, pos, tag, params).value;
            var o := pos + |Opening(tag, params)|;
            var c := o + |PLACEHOLDER|;
            && c + |tag| + 3 <= |v|
            && v[pos..o] == Opening(tag, params)
            && v[o..c] == PLACEHOLDER
            && v[c..c + |tag| + 3] == Closing(tag)
  {
    var v := InsertTag(value, pos, pos, tag, params).value;
    var open, close := Opening(tag, params), Closing(tag);
    assert value[pos..pos] == [];
    var m := Markup(tag, params, value[pos..pos]);
    assert m == open + PLACEHOLDER + close;
    assert |m| == |open| + |PLACEHOLDER| + |close|;
    assert v[pos..pos + |m|] == m;
    ThreePartLayout(v, pos, open, PLACEHOLDER, close);
  }

  /** A wrapping tag over selected text keeps that text between the opening
      and the closing tag. */
  lemma WrappingKeepsSelection(value: string, start: nat, end: nat, tag: string, params: string)
    requires start < end <= |value| && tag != BREAK
    ensures var r := InsertTag(value, start, end, tag, params);
            var o := start + |Opening(tag, params)|;
            var k := o + (end - start);
            && k + |tag| + 3 <= |r.value|
            && r.value[start..o] == Opening(tag, params)
            && r.value[o..k] == value[start..end]
            && r.value[k..k + |tag| + 3] == Closing(tag)
  {
    var r := InsertTag(value, start, end, tag, params);
    ThreePartLayout(r.value, start, Opening(tag, params), value[start..end], Closing(tag));
  }

  /** The SSML textarea: its value and its selection. */
  class SsmlTextarea {
    var value: string
    var selectionStart: nat
    var selectionEnd: nat

    ghost predicate Valid()
      reads this
    {
      selectionStart <= selectionEnd <= |value|
    }

    constructor (initial: string)
      ensures Valid() && value == initial && selectionStart == selectionEnd == |initial|
    {
      value := initial;
      selectionStart, selectionEnd := |initial|, |initial|;
    }

    /** `insertSsmlTag(tag, params)`. Assigning the value collapses the
        selection at the end of the new text, as the HTML value setter does;
        the script then moves the cursor where `InsertTag` puts it. */
    method InsertSsmlTag(tag: string, params: string)
      requires Valid()
      modifies this
      ensures Valid()
      ensures var r := InsertTag(old(value), old(selectionStart), old(selectionEnd), tag, params);
              value == r.value
              && (r.cursor.Some? ==> selectionStart == selectionEnd == r.cursor.value)
              && (r.cursor.None? ==> selectionStart == selectionEnd == |value|)
    {
      var r := InsertTag(value, selectionStart, selectionEnd, tag, params);
      value := r.value;
      selectionStart, selectionEnd := |value|, |value|;
      if r.cursor.Some? {
        selectionStart, selectionEnd := r.cursor.value, r.cursor.value;
      }
    }
  }
}
