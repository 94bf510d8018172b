/**
 * The browser side of collect.py reduced to plain data: the year dropdown
 * (select_dropdown_option) and the grid pager (select_grid_page), whose page
 * links come in blocks that an ellipsis link at the end advances through.
 */
module Navigation {
  import opened Wrappers
  import Text
  import Search
  import Grid

  /** The text of the pager link that reveals the next block of page links. */
  const Ellipsis: string := "..."

  /** One year's vote listing: the pager's blocks of raw link texts, and the grid shown for each page label. */
  datatype Listing = Listing(pager: seq<seq<string>>, pages: map<string, Grid.Table>)

  /** The grid shown after clicking the page link labelled `label` (empty when the site has none). */
  function GridAt(pages: map<string, Grid.Table>, target: string): Grid.Table {
    if target in pages then pages[target] else Grid.Table([], [])
  }

  /** The listing browser: the year dropdown, the listing it loaded, the pager block shown and the page clicked. */
  class Browser {
    var options: seq<string>
    var listings: seq<Listing>
    var pager: seq<seq<string>>
    var pages: map<string, Grid.Table>
    var block: nat
    var shown: Option<string>

    /** Each dropdown item loads one listing; the pager never shows a block past its last. */
    ghost predicate Valid()
      reads this
    {
      |options| == |listings| && block <= |pager|
    }

    constructor (options: seq<string>, listings: seq<Listing>)
      requires |options| == |listings|
      ensures Valid()
      ensures this.options == options && this.listings == listings
      ensures pager == [] && pages == map[] && block == 0 && shown == None
    {
      this.options := options;
      this.listings := listings;
      pager, pages, block, shown := [], map[], 0, None;
    }

    /** The raw texts of the page links currently shown. */
    function Spans(): seq<string>
      reads this
    {
      if block < |pager| then pager[block] else []
    }

    /** The grid currently rendered. */
    function CurrentGrid(): Grid.Table
      reads this
    {
      if shown.Some? then GridAt(pages, shown.value) else Grid.Table([], [])
    }
  }

  /** The text of every page link, block by block, as extract_text gives it. */
  function Labels(pager: seq<seq<string>>): (labels: seq<seq<string>>)
    ensures |labels| == |pager| && forall k :: 0 <= k < |pager| ==> labels[k] == Text.Texts(pager[k])
  {
    seq(|pager|, k requires 0 <= k < |pager| => Text.Texts(pager[k]))
  }

  /** The link texts shown when the pager is at block `block`: none past the last block. */
  function Shown(labels: seq<seq<string>>, block: nat): seq<string> {
    if block < |labels| then labels[block] else []
  }

  predicate EndsInEllipsis(texts: seq<string>) {
    |texts| > 0 && texts[|texts| - 1] == Ellipsis
  }

  /** Where a page search ends: the link clicked, or the block in which the search gave up. */
  datatype PagerOutcome = Reached(block: nat, index: nat) | Exhausted(block: nat)

  /**
   * The pager search of select_grid_page over the link texts: the first link whose
   * text is `target`; failing that, when the last link is an ellipsis, the same
   * search in the next block.
   */
  function GoToPage(labels: seq<seq<string>>, block: nat, target: string): (o: PagerOutcome)
    requires block <= |labels|
    ensures block <= o.block <= |labels|
    decreases |labels| - block
  {
    var texts := Shown(labels, block);
    match Search.FirstIndexOf(texts, target)
    case Some(i) => Reached(block, i)
    case None =>
      if EndsInEllipsis(texts) then GoToPage(labels, block + 1, target) else Exhausted(block)
  }

  /** select_dropdown_option: click the first item whose text is `optionText`, which loads its listing. */
  method SelectDropdownOption(b: Browser, optionText: string) returns (found: bool)
    requires b.Valid()
    modifies b
    ensures b.Valid() && b.options == old(b.options) && b.listings == old(b.listings)
    ensures var k := Search.FirstIndexOf(Text.Texts(old(b.options)), optionText);
      && found == k.Some?
      && (found ==> b.pager == old(b.listings)[k.value].pager && b.pages == old(b.listings)[k.value].pages)
      && (found ==> b.block == 0 && b.shown == None)
      && (!found ==> b.pager == old(b.pager) && b.pages == old(b.pages))
      && (!found ==> b.block == old(b.block) && b.shown == old(b.shown))
  {
    var texts := Text.Texts(b.options);
    for i := 0 to |texts|
      invariant forall j :: 0 <= j < i ==> texts[j] != optionText
    {
      if optionText == texts[i] {
        var listing := b.listings[i];
        b.pager, b.pages, b.block, b.shown := listing.pager, listing.pages, 0, None;
        return true;
      }
    }
    return false;
  }

  /** What a pass over the shown page links finds: the link to click, the trailing ellipsis, or neither. */
  datatype SpanScan = Hit(index: nat) | More | Miss

  /** The loop of select_grid_page over the shown links, before anything is clicked. */
  method ScanSpans(texts: seq<string>, numberString: string) returns (r: SpanScan)
    ensures r.Hit? <==> Search.FirstIndexOf(texts, numberString).Some?
    ensures r.Hit? ==> Search.FirstIndexOf(texts, numberString) == Some(r.index)
    ensures r.More? <==> numberString !in texts && EndsInEllipsis(texts)
  {
    var index := 0;
    while index < |texts|
      invariant 0 <= index <= |texts|
      invariant forall j :: 0 <= j < index ==> texts[j] != numberString
      invariant index == |texts| && index > 0 ==> texts[index - 1] != Ellipsis
    {
      var spanText := texts[index];
      if numberString == spanText {
        return Hit(index);
      } else if spanText == Ellipsis && index == |texts| - 1 {
        return More;
      }
      index := index + 1;
    }
    return Miss;
  }

  /** select_grid_page: click the link for `pageNumber`, expanding the pager through ellipsis links as needed. */
  method SelectGridPage(b: Browser, pageNumber: nat) returns (found: bool)
    requires b.Valid()
    modifies b
    ensures b.Valid() && b.options == old(b.options) && b.listings == old(b.listings)
    ensures b.pager == old(b.pager) && b.pages == old(b.pages)
    ensures var o := GoToPage(Labels(old(b.pager)), old(b.block), Text.DecimalString(pageNumber));
      && found == o.Reached?
      && b.block == o.block
      && b.shown == (if found then Some(Text.DecimalString(pageNumber)) else old(b.shown))
    decreases |b.pager| - b.block
  {
    var texts := Text.Texts(b.Spans());
    assert texts == Shown(Labels(b.pager), b.block);
    var numberString := Text.DecimalString(pageNumber);
    var scan := ScanSpans(texts, numberString);
    match scan
    case Hit(_) =>
      b.shown := Some(numberString);
      return true;
    case More =>
      b.block := b.block + 1;
      found := SelectGridPage(b, pageNumber);
    case Miss =>
      return false;
  }

  /** Block k holds the target, and every block before it (from `block` on) lacks it and ends in an ellipsis. */
  ghost predicate ReachableIn(labels: seq<seq<string>>, block: nat, k: nat, target: string) {
    && block <= k < |labels|
    && target in labels[k]
    && forall m :: block <= m < k ==> target !in labels[m] && EndsInEllipsis(labels[m])
  }

  /**
   * The search reaches a page exactly when some block holds its label and every earlier
   * block offers an ellipsis, and then stops in that block; the link clicked is the first
   * one with that label there.
   */
  lemma {:induction false} GoToPageReached(labels: seq<seq<string>>, block: nat, target: string)
    requires block <= |labels|
    ensures forall k: nat :: ReachableIn(labels, block, k, target) ==>
      GoToPage(labels, block, target).Reached? && GoToPage(labels, block, target).block == k
    ensures var o := GoToPage(labels, block, target);
      o.Reached? ==>
        && ReachableIn(labels, block, o.block, target)
        && o.index < |labels[o.block]|
        && labels[o.block][o.index] == target
        && forall j :: 0 <= j < o.index ==> labels[o.block][j] != target
    decreases |labels| - block
  {
    var texts := Shown(labels, block);
    var o := GoToPage(labels, block, target);
    if target in texts {
      assert ReachableIn(labels, block, block, target);
      assert o == Reached(block, Search.FirstIndexOf(texts, target).value);
    } else if EndsInEllipsis(texts) {
      assert o == GoToPage(labels, block + 1, target);
      GoToPageReached(labels, block + 1, target);
      forall k: nat
        ensures ReachableIn(labels, block, k, target) <==> ReachableIn(labels, block + 1, k, target)
      {
        ReachableStep(labels, block, k, target);
      }
    } else {
      assert o == Exhausted(block);
      forall k: nat ensures !ReachableIn(labels, block, k, target) {
        NotReachableHere(labels, block, k, target);
      }
    }
  }

  /** Past a block without the target that ends in an ellipsis, the search goes on exactly as from the next block. */
  lemma ReachableStep(labels: seq<seq<string>>, block: nat, k: nat, target: string)
    requires block < |labels|
    requires target !in labels[block] && EndsInEllipsis(labels[block])
    ensures ReachableIn(labels, block, k, target) <==> ReachableIn(labels, block + 1, k, target)
  {
  }

  /** A block without the target and without a trailing ellipsis ends the search. */
  lemma NotReachableHere(labels: seq<seq<string>>, block: nat, k: nat, target: string)
    requires var texts := Shown(labels, block); target !in texts && !EndsInEllipsis(texts)
    ensures !ReachableIn(labels, block, k, target)
  {
  }

  /** A label that no remaining block shows is never reached, however many ellipses are followed. */
  lemma GoToPageAbsent(labels: seq<seq<string>>, block: nat, target: string)
    requires block <= |labels|
    requires forall k :: block <= k < |labels| ==> target !in labels[k]
    ensures GoToPage(labels, block, target).Exhausted?
  {
    GoToPageReached(labels, block, target);
  }

  /** Length of the longest text in a block. */
  function MaxLength(texts: seq<string>): (n: nat)
    ensures forall i :: 0 <= i < |texts| ==> |texts[i]| <= n
  {
    if texts == [] then 0
    else
      var rest := MaxLength(texts[1..]);
      if |texts[0]| > rest then |texts[0]| else rest
  }

  /** Length of the longest link text anywhere in the pager. */
  function MaxLabelLength(labels: seq<seq<string>>): (n: nat)
    ensures forall k, j :: 0 <= k < |labels| && 0 <= j < |labels[k]| ==> |labels[k][j]| <= n
  {
    if labels == [] then 0
    else
      var rest := MaxLabelLength(labels[1..]);
      var first := MaxLength(labels[0]);
      assert forall k :: 1 <= k < |labels| ==> labels[k] == labels[1..][k - 1];
      if first > rest then first else rest
  }

  /** Page numbers at or beyond this bound have decimal strings longer than any link text. */
  function PageBound(labels: seq<seq<string>>): nat {
    Text.Pow10(MaxLabelLength(labels))
  }

  /** Only page numbers below the bound can be reached, so a page-by-page walk must stop. */
  lemma ReachedBelowBound(labels: seq<seq<string>>, block: nat, p: nat)
    requires block <= |labels|
    requires GoToPage(labels, block, Text.DecimalString(p)).Reached?
    ensures p < PageBound(labels)
  {
    var o := GoToPage(labels, block, Text.DecimalString(p));
    GoToPageReached(labels, block, Text.DecimalString(p));
    Text.DecimalStringBound(p, MaxLabelLength(labels));
  }

  /** The pages a listing walk selects, and the pager block it stops in. */
  datatype Walk = Walk(pages: seq<nat>, endBlock: nat)

  /** scrape_vote_listing's walk: select page p, p+1, ... until a selection fails. */
  function PageWalk(labels: seq<seq<string>>, block: nat, p: nat): (w: Walk)
    requires block <= |labels|
    ensures w.endBlock <= |labels|
    decreases PageBound(labels) - p
  {
    var o := GoToPage(labels, block, Text.DecimalString(p));
    if o.Reached? then
      ReachedBelowBound(labels, block, p);
      var rest := PageWalk(labels, o.block, p + 1);
      Walk([p] + rest.pages, rest.endBlock)
    else Walk([], block)
  }

  /** One step of the walk: a selected page is followed by the walk from the next page, in the block it reached. */
  lemma PageWalkStep(labels: seq<seq<string>>, block: nat, p: nat)
    requires block <= |labels|
    ensures var o := GoToPage(labels, block, Text.DecimalString(p));
      && (!o.Reached? ==> PageWalk(labels, block, p) == Walk([], block))
      && (o.Reached? ==>
            var rest := PageWalk(labels, o.block, p + 1);
            PageWalk(labels, block, p) == Walk([p] + rest.pages, rest.endBlock))
  {
    if GoToPage(labels, block, Text.DecimalString(p)).Reached? {
      ReachedBelowBound(labels, block, p);
    }
  }

  /** The walk visits consecutive pages in increasing order, starting at `p`. */
  lemma {:induction false} PageWalkConsecutive(labels: seq<seq<string>>, block: nat, p: nat)
    requires block <= |labels|
    ensures var w := PageWalk(labels, block, p);
      forall i :: 0 <= i < |w.pages| ==> w.pages[i] == p + i
    decreases PageBound(labels) - p
  {
    var o := GoToPage(labels, block, Text.DecimalString(p));
    if o.Reached? {
      ReachedBelowBound(labels, block, p);
      var w := PageWalk(labels, block, p);
      var rest := PageWalk(labels, o.block, p + 1);
      PageWalkConsecutive(labels, o.block, p + 1);
      assert var w' := PageWalk(labels, o.block, p + 1); forall i :: 0 <= i < |w'.pages| ==> w'.pages[i] == p + 1 + i;
      assert w.pages == [p] + rest.pages;
      forall i | 0 <= i < |w.pages| ensures w.pages[i] == p + i {
        if i == 0 {
          assert w.pages[0] == ([p] + rest.pages)[0];
        } else {
          assert w.pages[i] == rest.pages[i - 1] == p + 1 + (i - 1);
        }
      }
    }
  }

  /** The walk stops at the first page after the ones it visited that cannot be selected from where it ended. */
  lemma {:induction false} PageWalkStops(labels: seq<seq<string>>, block: nat, p: nat)
    requires block <= |labels|
    ensures var w := PageWalk(labels, block, p);
      !GoToPage(labels, w.endBlock, Text.DecimalString(p + |w.pages|)).Reached?
    decreases PageBound(labels) - p
  {
    var o := GoToPage(labels, block, Text.DecimalString(p));
    if o.Reached? {
      ReachedBelowBound(labels, block, p);
      var w := PageWalk(labels, block, p);
      var rest := PageWalk(labels, o.block, p + 1);
      PageWalkStops(labels, o.block, p + 1);
      assert w == Walk([p] + rest.pages, rest.endBlock);
      assert p + |w.pages| == p + 1 + |rest.pages|;
    } else {
      assert PageWalk(labels, block, p) == Walk([], block);
    }
  }
}
