/** The page renderer shared by `PdfService.renderPage` and the
    HuggingFace service's `render_page`: positioned text items become lines,
    a newline going in front of an item whose height differs from a
    non-zero previous height. */
module PageRender {
  import opened Wrappers
  import opened Text

  /** A text item of a page: its string and its vertical position
      `transform[5]`. */
  datatype TextItem = TextItem(str: string, y: real)

  /** The loop's test for a line break before an item at height `y`: the
      previous height must be set, non-zero (`!lastY` holds for 0) and
      different. */
  predicate Breaks(lastY: Option<real>, y: real) {
    lastY.Some? && lastY.value != 0.0 && lastY.value != y
  }

  /** What the loop appends for one item. */
  function Piece(lastY: Option<real>, item: TextItem): (r: string)
    ensures Breaks(lastY, item.y) ==> r == "\n" + item.str
    ensures !Breaks(lastY, item.y) ==> r == item.str
  {
    (if Breaks(lastY, item.y) then "\n" else "") + item.str
  }

  /** The loop over the items from a given previous height. */
  function Render(items: seq<TextItem>, lastY: Option<real>): string {
    if items == [] then "" else Piece(lastY, items[0]) + Render(items[1..], Some(items[0].y))
  }

  /** The height the loop holds before item `k`. */
  function HeightBefore(items: seq<TextItem>, k: nat): (r: Option<real>)
    requires k <= |items|
    ensures k == 0 <==> r.None?
  {
    if k == 0 then None else Some(items[k - 1].y)
  }

  /** `renderPage` (and the identical `render_page` of the HuggingFace
      service): the items in order, each preceded by a newline exactly when
      the loop's break test holds. */
  function RenderPage(items: seq<TextItem>): string {
    Render(items, None)
  }

  /** The item strings glued together. */
  function Concat(items: seq<TextItem>): string {
    if items == [] then "" else items[0].str + Concat(items[1..])
  }

  /** With no break anywhere the page is the item strings glued together. */
  lemma {:induction false} RenderWithoutBreaks(items: seq<TextItem>, lastY: Option<real>)
    requires items != [] ==> !Breaks(lastY, items[0].y)
    requires forall k :: 0 < k < |items| ==> !Breaks(Some(items[k - 1].y), items[k].y)
    ensures Render(items, lastY) == Concat(items)
  {
    if items != [] {
      var tail := items[1..];
      assert forall k :: 0 < k < |tail| ==> tail[k - 1] == items[k] && tail[k] == items[k + 1];
      RenderWithoutBreaks(tail, Some(items[0].y));
    }
  }

  /** Items that never trigger a break render as their strings glued
      together, with no newline added. */
  lemma RenderPageWithoutBreaks(items: seq<TextItem>)
    ensures (forall k :: 0 < k < |items| ==> !Breaks(Some(items[k - 1].y), items[k].y)) ==> RenderPage(items) == Concat(items)
  {
    if forall k :: 0 < k < |items| ==> !Breaks(Some(items[k - 1].y), items[k].y) {
      RenderWithoutBreaks(items, None);
    }
  }

  /** Rendering a list split in two renders the second part from the last
      height of the first. */
  lemma {:induction false} RenderAppend(a: seq<TextItem>, b: seq<TextItem>, lastY: Option<real>)
    ensures Render(a + b, lastY) == Render(a, lastY) + Render(b, if a == [] then lastY else Some(a[|a| - 1].y))
  {
    if a == [] {
      assert a + b == b;
    } else {
      assert (a + b)[1..] == a[1..] + b;
      RenderAppend(a[1..], b, Some(a[0].y));
      if |a| > 1 {
        assert a[1..][|a[1..]| - 1] == a[|a| - 1];
      }
    }
  }

  /** The page is the items before `k`, then item `k` after the height
      before it, then the rest after item `k`'s height. */
  lemma RenderPageSplit(items: seq<TextItem>, k: nat)
    requires k < |items|
    ensures RenderPage(items)
         == RenderPage(items[..k]) + Piece(HeightBefore(items, k), items[k]) + Render(items[k + 1..], Some(items[k].y))
  {
    var before := items[..k];
    var after := items[k..];
    assert items == before + after;
    RenderAppend(before, after, None);
    assert after[1..] == items[k + 1..];
  }

  /** Item `k` appears in the page right after the rendering of the items
      before it, preceded by a newline when the height before it is set,
      non-zero and different from its own, and directly otherwise. */
  lemma RenderPageAt(items: seq<TextItem>, k: nat)
    requires k < |items|
    ensures var at := |RenderPage(items[..k])|;
            && OccursAt(RenderPage(items), Piece(HeightBefore(items, k), items[k]), at)
            && (Breaks(HeightBefore(items, k), items[k].y) ==>
                  OccursAt(RenderPage(items), "\n", at) && OccursAt(RenderPage(items), items[k].str, at + 1))
            && (!Breaks(HeightBefore(items, k), items[k].y) ==> OccursAt(RenderPage(items), items[k].str, at))
  {
    var head := RenderPage(items[..k]);
    var piece := Piece(HeightBefore(items, k), items[k]);
    var rest := Render(items[k + 1..], Some(items[k].y));
    RenderPageSplit(items, k);
    InfixFacts(head, piece, rest);
    if Breaks(HeightBefore(items, k), items[k].y) {
      NewlineThenText(head, items[k].str, rest);
    }
  }

  /** Where the newline and the text of a broken item sit. */
  lemma NewlineThenText(head: string, str: string, rest: string)
    ensures OccursAt(head + ("\n" + str) + rest, "\n", |head|)
    ensures OccursAt(head + ("\n" + str) + rest, str, |head| + 1)
  {
    assert head + ("\n" + str) + rest == head + "\n" + (str + rest);
    InfixFacts(head, "\n", str + rest);
    assert head + ("\n" + str) + rest == (head + "\n") + str + rest;
    InfixFacts(head + "\n", str, rest);
  }

  /** A previous height of zero never causes a break, whatever comes next. */
  lemma ZeroHeightJoins(before: TextItem, item: TextItem)
    requires before.y == 0.0
    ensures RenderPage([before, item]) == before.str + item.str
  {
    assert [before, item][1..] == [item];
    assert [item][1..] == [];
    assert Render([item], Some(before.y)) == item.str;
  }
}
