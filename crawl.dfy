/**
 * The scraping functions of collect.py as they run: loops that drive the
 * browser and add records to the session one by one. Each is proved to leave
 * the session exactly where the corresponding function of Scrape says, or to
 * stop with the fault that function names.
 */
module Crawl {
  import opened Wrappers
  import opened Faults
  import Text
  import Grid
  import Navigation
  import Store
  import opened Scrape

  /** A run that passed left the tables `now` that the specification computes; a run that failed raised its fault. */
  predicate Settles(spec: Result<Store.Tables, Fault>, r: Outcome<Fault>, now: Store.Tables) {
    match r
    case Pass => spec == Success(now)
    case Fail(e) => spec == Failure(e)
  }

  /** scrape_proposal_page: read the labels of the page at `url`, then add and flush the proposal. */
  method ScrapeProposalPage(session: Store.Session, details: map<string, DetailPage>, url: string)
    returns (r: Result<Store.Proposal, Fault>)
    requires session.Valid()
    modifies session
    ensures session.Valid() && session.committed == old(session.committed)
    ensures var spec := ScrapedProposal(old(session.pending), details, url);
      && (r.Success? <==> spec.Success?)
      && (r.Success? ==> spec.value == (session.pending, r.value))
      && (r.Failure? ==> spec.error == r.error && session.pending == old(session.pending))
  {
    if url !in details {
      return Failure(MissingDetail(url));
    }
    var page := details[url];
    var fileNumber := NumberIn(page.fileText);
    if fileNumber.Failure? {
      return Failure(fileNumber.error);
    }
    var title := Text.ExtractText(page.titleText);
    var proposalType := Text.ExtractText(page.typeText);
    var status := Text.ExtractText(page.statusText);
    var introduced := DateIn(page.introducedText);
    if introduced.Failure? {
      return Failure(introduced.error);
    }
    var proposal := Store.NewProposal(fileNumber.value, title);
    proposal := proposal.(status := Some(status));
    proposal := proposal.(proposalType := Some(proposalType));
    proposal := proposal.(introductionDate := Some(introduced.value));
    var stored := session.AddProposal(proposal);
    return Success(stored);
  }

  /** The supervisor loop of scrape_vote_page: record an Aye or No of each supervisor at `event`. */
  method CastRowVotes(session: Store.Session, row: map<string, Grid.Cell>, supervisors: seq<string>, event: Store.VoteEvent)
    returns (r: Outcome<Fault>)
    requires session.Valid()
    modifies session
    ensures session.Valid() && session.committed == old(session.committed)
    ensures Settles(CastVotes(old(session.pending), row, supervisors, event), r, session.pending)
  {
    for i := 0 to |supervisors|
      invariant session.Valid() && session.committed == old(session.committed)
      invariant CastVotes(old(session.pending), row, supervisors, event)
        == CastVotes(session.pending, row, supervisors[i..], event)
    {
      assert supervisors[i..][1..] == supervisors[i + 1..];
      var name := supervisors[i];
      var cell := Column(row, name);
      if cell.Failure? {
        return Fail(cell.error);
      }
      var voteCast := Text.ExtractText(cell.value.text);
      if IsBallot(voteCast) {
        var legislator := session.RecordSupervisor(name);
        var added := session.AddVote(Store.NewVote(legislator, event, voteCast == "Aye"));
        if added.Fail? {
          return added;
        }
      }
    }
    return Pass;
  }

  /** One pass of the row loop of scrape_vote_page: the proposal, then its vote event, then the votes. */
  method ScrapeRow(session: Store.Session, details: map<string, DetailPage>, row: map<string, Grid.Cell>, supervisors: seq<string>)
    returns (r: Outcome<Fault>)
    requires session.Valid()
    modifies session
    ensures session.Valid() && session.committed == old(session.committed)
    ensures Settles(ScrapedRow(old(session.pending), details, row, supervisors), r, session.pending)
  {
    var fileCell := Column(row, FileColumn);
    if fileCell.Failure? {
      return Fail(fileCell.error);
    }
    var fileNumber := NumberIn(fileCell.value.text);
    if fileNumber.Failure? {
      return Fail(fileNumber.error);
    }
    var dateCell := Column(row, DateColumn);
    if dateCell.Failure? {
      return Fail(dateCell.error);
    }
    var actionDate := DateIn(dateCell.value.text);
    if actionDate.Failure? {
      return Fail(actionDate.error);
    }
    ghost var before := session.pending;
    var proposal: Store.Proposal;
    var found := session.FindProposal(fileNumber.value);
    if found.Some? {
      proposal := found.value;
    } else {
      var link := fileCell.value.link;
      if link.None? {
        return Fail(NoLink);
      }
      var scraped := ScrapeProposalPage(session, details, link.value);
      if scraped.Failure? {
        return Fail(scraped.error);
      }
      proposal := scraped.value;
    }
    assert ResolvedProposal(before, details, fileNumber.value, fileCell.value) == Success((session.pending, proposal));
    var event := session.AddVoteEvent(Store.NewVoteEvent(proposal, actionDate.value));
    r := CastRowVotes(session, row, supervisors, event);
  }

  /** scrape_vote_page: read the grid, check its first six headers, then scrape every row in order. */
  method ScrapeVotePage(session: Store.Session, details: map<string, DetailPage>, table: Grid.Table)
    returns (r: Outcome<Fault>)
    requires session.Valid()
    modifies session
    ensures session.Valid() && session.committed == old(session.committed)
    ensures Settles(ScrapedPage(old(session.pending), details, table), r, session.pending)
  {
    var headers, rows := Grid.ExtractGridCells(table);
    if !HeadersOk(headers) {
      return Fail(HeaderMismatch(headers));
    }
    assert rows == RowMaps(headers, table.rows);
    var supervisors := headers[6..];
    for i := 0 to |rows|
      invariant session.Valid() && session.committed == old(session.committed)
      invariant ScrapedRows(old(session.pending), details, rows, supervisors)
        == ScrapedRows(session.pending, details, rows[i..], supervisors)
    {
      assert rows[i..][1..] == rows[i + 1..];
      var scraped := ScrapeRow(session, details, rows[i], supervisors);
      if scraped.Fail? {
        return scraped;
      }
    }
    return Pass;
  }

  /**
   * scrape_vote_listing: select pages 1, 2, ... and scrape each until a page
   * cannot be selected; the pager is then left where that last search ended,
   * showing the last page scraped.
   */
  method ScrapeVoteListing(b: Navigation.Browser, session: Store.Session, details: map<string, DetailPage>)
    returns (r: Outcome<Fault>)
    requires b.Valid() && session.Valid()
    modifies b, session
    ensures b.Valid() && b.options == old(b.options) && b.listings == old(b.listings)
    ensures b.pager == old(b.pager) && b.pages == old(b.pages)
    ensures session.Valid() && session.committed == old(session.committed)
    ensures Settles(
      ScrapedListing(old(session.pending), details, Navigation.Listing(old(b.pager), old(b.pages)), old(b.block), 1),
      r, session.pending)
    ensures var labels := Navigation.Labels(old(b.pager));
      var w := Navigation.PageWalk(labels, old(b.block), 1);
      r.Pass? ==>
        && b.block == Navigation.GoToPage(labels, w.endBlock, Text.DecimalString(1 + |w.pages|)).block
        && b.shown == (if w.pages == [] then old(b.shown) else Some(Text.DecimalString(|w.pages|)))
  {
    ghost var listing := Navigation.Listing(b.pager, b.pages);
    ghost var labels := Navigation.Labels(b.pager);
    ghost var walk := Navigation.PageWalk(labels, b.block, 1);
    var pageNumber := 1;
    while true
      invariant b.Valid() && b.options == old(b.options) && b.listings == old(b.listings)
      invariant b.pager == listing.pager && b.pages == listing.pages
      invariant session.Valid() && session.committed == old(session.committed)
      invariant 1 <= pageNumber <= Navigation.PageBound(Navigation.Labels(listing.pager))
      invariant ScrapedListing(old(session.pending), details, listing, old(b.block), 1)
        == ScrapedListing(session.pending, details, listing, b.block, pageNumber)
      invariant Navigation.PageWalk(labels, b.block, pageNumber).endBlock == walk.endBlock
      invariant |walk.pages| == pageNumber - 1 + |Navigation.PageWalk(labels, b.block, pageNumber).pages|
      invariant b.shown == (if pageNumber == 1 then old(b.shown) else Some(Text.DecimalString(pageNumber - 1)))
      decreases Navigation.PageBound(Navigation.Labels(listing.pager)) - pageNumber
    {
      ScrapedListingStep(session.pending, details, listing, b.block, pageNumber);
      Navigation.PageWalkStep(labels, b.block, pageNumber);
      var selected := Navigation.SelectGridPage(b, pageNumber);
      if !selected {
        return Pass;
      }
      var scraped := ScrapeVotePage(session, details, b.CurrentGrid());
      if scraped.Fail? {
        return scraped;
      }
      pageNumber := pageNumber + 1;
    }
  }

  /** The year loop of scrape_vote_years: each year of the range in turn, selected in the dropdown and scraped. */
  method ScrapeYearRange(
    b: Navigation.Browser, session: Store.Session, details: map<string, DetailPage>, firstYear: int, lastYear: int)
    returns (r: Outcome<Fault>)
    requires b.Valid() && session.Valid()
    modifies b, session
    ensures b.Valid() && session.Valid() && session.committed == old(session.committed)
    ensures Settles(CrawledYears(old(session.pending), details, old(b.options), old(b.listings), firstYear, lastYear), r, session.pending)
  {
    var year := firstYear;
    while year <= lastYear
      invariant b.Valid() && b.options == old(b.options) && b.listings == old(b.listings)
      invariant session.Valid() && session.committed == old(session.committed)
      invariant year == firstYear || firstYear <= year <= lastYear + 1
      invariant CrawledYears(old(session.pending), details, b.options, b.listings, firstYear, lastYear)
        == CrawledYears(session.pending, details, b.options, b.listings, year, lastYear)
      decreases lastYear + 1 - year
    {
      CrawledYearsStep(session.pending, details, b.options, b.listings, year, lastYear);
      var selected := Navigation.SelectDropdownOption(b, Text.IntString(year));
      if !selected {
        return Fail(YearNotFound(year));
      }
      r := ScrapeVoteListing(b, session, details);
      if r.Fail? {
        return;
      }
      year := year + 1;
    }
    return Pass;
  }

  /**
   * scrape_vote_years: the years of the range scraped in turn; one commit at the
   * end, and a rollback on any fault.
   */
  method ScrapeVoteYears(
    b: Navigation.Browser, session: Store.Session, details: map<string, DetailPage>, firstYear: int, lastYear: int)
    returns (r: Outcome<Fault>)
    requires b.Valid() && session.Valid()
    modifies b, session
    ensures session.Valid()
    ensures var spec := CrawledYears(old(session.pending), details, old(b.options), old(b.listings), firstYear, lastYear);
      match r
      case Pass => spec == Success(session.committed) && session.pending == session.committed
      case Fail(e) => spec == Failure(e) && session.committed == old(session.committed) && session.pending == old(session.committed)
    ensures r.Pass? ==> Store.Extends(session.committed, old(session.committed))
    ensures Store.WellFormed(old(session.pending)) && Store.WellFormed(old(session.committed)) ==>
      Store.WellFormed(session.committed) && Store.WellFormed(session.pending)
    ensures
      && Store.WellFormed(old(session.pending))
      && Store.UniqueNumbers(old(session.pending)) && Store.UniqueNumbers(old(session.committed))
      && (forall k :: 0 <= k < |old(b.listings)| ==> ListingAgrees(details, old(b.listings)[k]))
      ==> Store.UniqueNumbers(session.committed) && Store.UniqueNumbers(session.pending)
  {
    if Store.WellFormed(session.pending) {
      CrawledYearsWellFormed(session.pending, details, b.options, b.listings, firstYear, lastYear);
      if Store.UniqueNumbers(session.pending) && forall k :: 0 <= k < |b.listings| ==> ListingAgrees(details, b.listings[k]) {
        CrawledYearsKeepNumbersUnique(session.pending, details, b.options, b.listings, firstYear, lastYear);
      }
    }
    r := ScrapeYearRange(b, session, details, firstYear, lastYear);
    if r.Fail? {
      session.Rollback();
    } else {
      session.Commit();
    }
  }
}
