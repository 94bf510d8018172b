/**
 * What the scraping functions of collect.py do to the store, stated on values:
 * one vote grid row, a page of rows, a year's listing walked page by page, and
 * the crawl over a range of years. Each either yields the new tables or the
 * fault that aborts the crawl.
 */
module Scrape {
  import opened Wrappers
  import opened Faults
  import Text
  import Dates
  import Search
  import Grid
  import Navigation
  import Store

  /** The column headers every vote grid starts with; the supervisors' columns follow. */
  const FixedColumns: seq<string> := ["File #", "Action Date", "Title", "Action Details", "Meeting Details", "Tally"]
  const FileColumn: string := "File #"
  const DateColumn: string := "Action Date"

  /** The raw text of the labels on a proposal's detail page. */
  datatype DetailPage = DetailPage(
    fileText: string,
    titleText: string,
    typeText: string,
    introducedText: string,
    statusText: string)

  /** int(extract_text(element)) */
  function NumberIn(raw: string): Result<int, Fault> {
    var text := Text.ExtractText(raw);
    match Text.ParseInt(text)
    case Some(n) => Success(n)
    case None => Failure(NotANumber(text))
  }

  /** parse_date(extract_text(element)) */
  function DateIn(raw: string): Result<Dates.Date, Fault> {
    var text := Text.ExtractText(raw);
    match Dates.ParseDate(text)
    case Success(d) => Success(d)
    case Failure(e) => Failure(BadDate(text, e))
  }

  /** The record scrape_proposal_page builds, as written: its type is read from the introduction-date label. */
  function ProposalFromPageAsWritten(page: DetailPage): Result<Store.Proposal, Fault> {
    var fileNumber :- NumberIn(page.fileText);
    var introduced :- DateIn(page.introducedText);
    Success(Store.NewProposal(fileNumber, Text.ExtractText(page.titleText)).(
      status := Some(Text.ExtractText(page.statusText)),
      proposalType := Some(Text.ExtractText(page.introducedText)),
      introductionDate := Some(introduced)))
  }

  /** The record scrape_proposal_page evidently means to build, its type read from the type label. */
  function ProposalFromPage(page: DetailPage): Result<Store.Proposal, Fault> {
    var fileNumber :- NumberIn(page.fileText);
    var introduced :- DateIn(page.introducedText);
    Success(Store.NewProposal(fileNumber, Text.ExtractText(page.titleText)).(
      status := Some(Text.ExtractText(page.statusText)),
      proposalType := Some(Text.ExtractText(page.typeText)),
      introductionDate := Some(introduced)))
  }

  /** scrape_proposal_page: open the page at `url`, build the proposal, add and flush it. */
  function ScrapedProposal(t: Store.Tables, details: map<string, DetailPage>, url: string)
    : Result<(Store.Tables, Store.Proposal), Fault>
  {
    if url !in details then Failure(MissingDetail(url))
    else
      var p :- ProposalFromPage(details[url]);
      Success(Store.WithProposal(t, p))
  }

  /** find_proposal(file_number) or scrape_proposal_page(extract_href(file cell)). */
  function ResolvedProposal(t: Store.Tables, details: map<string, DetailPage>, fileNumber: int, fileCell: Grid.Cell)
    : Result<(Store.Tables, Store.Proposal), Fault>
  {
    match Store.ProposalNumbered(t, fileNumber)
    case Some(p) => Success((t, p))
    case None =>
      if fileCell.link.None? then Failure(NoLink)
      else ScrapedProposal(t, details, fileCell.link.value)
  }

  /** row[name] */
  function Column(row: map<string, Grid.Cell>, name: string): Result<Grid.Cell, Fault> {
    if name in row then Success(row[name]) else Failure(MissingColumn(name))
  }

  /** The two cell texts that record a vote. */
  predicate IsBallot(text: string) {
    text == "Aye" || text == "No"
  }

  /** extract_text(row[name]) */
  function VoteCast(row: map<string, Grid.Cell>, name: string): string
    requires name in row
  {
    Text.ExtractText(row[name].text)
  }

  /** The inner loop of scrape_vote_page: a vote at `event` for every supervisor whose cell says Aye or No. */
  function CastVotes(t: Store.Tables, row: map<string, Grid.Cell>, supervisors: seq<string>, event: Store.VoteEvent)
    : Result<Store.Tables, Fault>
    decreases |supervisors|
  {
    if supervisors == [] then Success(t)
    else
      var cell :- Column(row, supervisors[0]);
      var voteCast := Text.ExtractText(cell.text);
      if IsBallot(voteCast) then
        var (t1, legislator) := Store.WithSupervisor(t, supervisors[0]);
        var t2 :- Store.WithVote(t1, Store.NewVote(legislator, event, voteCast == "Aye"));
        CastVotes(t2, row, supervisors[1..], event)
      else
        CastVotes(t, row, supervisors[1..], event)
  }

  /** One pass of the row loop of scrape_vote_page. */
  function ScrapedRow(t: Store.Tables, details: map<string, DetailPage>, row: map<string, Grid.Cell>, supervisors: seq<string>)
    : Result<Store.Tables, Fault>
  {
    var fileCell :- Column(row, FileColumn);
    var fileNumber :- NumberIn(fileCell.text);
    var dateCell :- Column(row, DateColumn);
    var actionDate :- DateIn(dateCell.text);
    var resolved :- ResolvedProposal(t, details, fileNumber, fileCell);
    var (t1, event) := Store.WithVoteEvent(resolved.0, Store.NewVoteEvent(resolved.1, actionDate));
    CastVotes(t1, row, supervisors, event)
  }

  /** The row loop of scrape_vote_page, in row order. */
  function ScrapedRows(t: Store.Tables, details: map<string, DetailPage>, rows: seq<map<string, Grid.Cell>>, supervisors: seq<string>)
    : Result<Store.Tables, Fault>
    decreases |rows|
  {
    if rows == [] then Success(t)
    else
      var t1 :- ScrapedRow(t, details, rows[0], supervisors);
      ScrapedRows(t1, details, rows[1..], supervisors)
  }

  /** headers[:6] == the fixed columns */
  predicate HeadersOk(headers: seq<string>) {
    var n := if |headers| < 6 then |headers| else 6;
    headers[..n] == FixedColumns
  }

  /** The rows extract_grid_cells returns for a grid. */
  function RowMaps(headers: seq<string>, bodyRows: seq<seq<Grid.Cell>>): seq<map<string, Grid.Cell>> {
    seq(|bodyRows|, i requires 0 <= i < |bodyRows| => Grid.RowMap(headers, bodyRows[i]))
  }

  /** scrape_vote_page on the grid shown. */
  function ScrapedPage(t: Store.Tables, details: map<string, DetailPage>, table: Grid.Table): Result<Store.Tables, Fault> {
    var headers := Text.Texts(table.headerTexts);
    if !HeadersOk(headers) then Failure(HeaderMismatch(headers))
    else ScrapedRows(t, details, RowMaps(headers, table.rows), headers[6..])
  }

  /** scrape_vote_listing from page `p` on, with the pager showing block `block`. */
  function ScrapedListing(t: Store.Tables, details: map<string, DetailPage>, listing: Navigation.Listing, block: nat, p: nat)
    : Result<Store.Tables, Fault>
    requires block <= |listing.pager|
    decreases Navigation.PageBound(Navigation.Labels(listing.pager)) - p
  {
    var labels := Navigation.Labels(listing.pager);
    var pageLabel := Text.DecimalString(p);
    var o := Navigation.GoToPage(labels, block, pageLabel);
    if o.Reached? then
      Navigation.ReachedBelowBound(labels, block, p);
      var t1 :- ScrapedPage(t, details, Navigation.GridAt(listing.pages, pageLabel));
      ScrapedListing(t1, details, listing, o.block, p + 1)
    else
      Success(t)
  }

  /** One step of scrape_vote_listing: select page `p`; if that works, scrape it and go on from the block reached. */
  lemma ScrapedListingStep(t: Store.Tables, details: map<string, DetailPage>, listing: Navigation.Listing, block: nat, p: nat)
    requires block <= |listing.pager|
    ensures var o := Navigation.GoToPage(Navigation.Labels(listing.pager), block, Text.DecimalString(p));
      && (!o.Reached? ==> ScrapedListing(t, details, listing, block, p) == Success(t))
      && (o.Reached? ==>
            var page := ScrapedPage(t, details, Navigation.GridAt(listing.pages, Text.DecimalString(p)));
            && p < Navigation.PageBound(Navigation.Labels(listing.pager))
            && (page.Failure? ==> ScrapedListing(t, details, listing, block, p) == Failure(page.error))
            && (page.Success? ==> ScrapedListing(t, details, listing, block, p) == ScrapedListing(page.value, details, listing, o.block, p + 1)))
  {
    if Navigation.GoToPage(Navigation.Labels(listing.pager), block, Text.DecimalString(p)).Reached? {
      Navigation.ReachedBelowBound(Navigation.Labels(listing.pager), block, p);
    }
  }

  /** scrape_vote_page applied to the pages numbered `pages`, in order. */
  function ScrapedPages(t: Store.Tables, details: map<string, DetailPage>, grids: map<string, Grid.Table>, pages: seq<nat>)
    : Result<Store.Tables, Fault>
    decreases |pages|
  {
    if pages == [] then Success(t)
    else
      var t1 :- ScrapedPage(t, details, Navigation.GridAt(grids, Text.DecimalString(pages[0])));
      ScrapedPages(t1, details, grids, pages[1..])
  }

  /** The year loop of scrape_vote_years from `year` to `lastYear`, before the commit. */
  function CrawledYears(
    t: Store.Tables, details: map<string, DetailPage>,
    options: seq<string>, listings: seq<Navigation.Listing>, year: int, lastYear: int)
    : Result<Store.Tables, Fault>
    requires |options| == |listings|
    decreases lastYear + 1 - year
  {
    if year > lastYear then Success(t)
    else
      match Search.FirstIndexOf(Text.Texts(options), Text.IntString(year))
      case None => Failure(YearNotFound(year))
      case Some(i) =>
        var t1 :- ScrapedListing(t, details, listings[i], 0, 1);
        CrawledYears(t1, details, options, listings, year + 1, lastYear)
  }

  // ---------------------------------------------------------------------------
  // The proposal record

  /**
   * A proposal page is accepted exactly when its file number is a number and its
   * introduction date a date; the record then holds the trimmed label texts and
   * has no id yet.
   */
  lemma ProposalFromPageExactly(page: DetailPage)
    ensures var number := Text.ParseInt(Text.ExtractText(page.fileText));
      var date := Dates.ParseDate(Text.ExtractText(page.introducedText));
      && (ProposalFromPage(page).Success? <==> number.Some? && date.Success?)
      && (ProposalFromPage(page).Success? ==>
            ProposalFromPage(page).value == Store.Proposal(
              None, number.value, Text.ExtractText(page.titleText),
              Some(Text.ExtractText(page.statusText)), Some(Text.ExtractText(page.typeText)),
              Some(date.value)))
  {
  }

  /** As written, the type column holds the introduction-date text: whenever a page is accepted, its type parses as its date. */
  lemma AsWrittenTypeIsTheDate(page: DetailPage)
    requires ProposalFromPageAsWritten(page).Success?
    ensures var p := ProposalFromPageAsWritten(page).value;
      && p.proposalType == Some(Text.ExtractText(page.introducedText))
      && Dates.ParseDate(p.proposalType.value) == Success(p.introductionDate.value)
  {
  }

  /** The corrected record fails on the same pages and differs from the as-written one only in its type. */
  lemma ProposalFromPageFixesType(page: DetailPage)
    ensures ProposalFromPage(page).Success? <==> ProposalFromPageAsWritten(page).Success?
    ensures ProposalFromPage(page).Success? ==>
      ProposalFromPage(page).value
        == ProposalFromPageAsWritten(page).value.(proposalType := Some(Text.ExtractText(page.typeText)))
  {
  }

  // ---------------------------------------------------------------------------
  // find_proposal or scrape_proposal_page

  /** A file number already stored is resolved to the stored proposal without touching the store. */
  lemma ResolvedProposalFindOrCreate(t: Store.Tables, details: map<string, DetailPage>, fileNumber: int, fileCell: Grid.Cell)
    ensures fileNumber in Store.FileNumbers(t.proposals) ==>
      ResolvedProposal(t, details, fileNumber, fileCell) == Success((t, Store.ProposalNumbered(t, fileNumber).value))
  {
  }

  /**
   * When the proposal resolved carries the row's file number, resolving the same
   * row again finds the proposal just added instead of adding another.
   */
  lemma ResolvedProposalIdempotent(t: Store.Tables, details: map<string, DetailPage>, fileNumber: int, fileCell: Grid.Cell)
    ensures var r := ResolvedProposal(t, details, fileNumber, fileCell);
      r.Success? && r.value.1.fileNumber == fileNumber ==>
        ResolvedProposal(r.value.0, details, fileNumber, fileCell) == r
  {
    var r := ResolvedProposal(t, details, fileNumber, fileCell);
    if r.Success? && r.value.1.fileNumber == fileNumber {
      if fileNumber in Store.FileNumbers(t.proposals) {
        assert r == Success((t, Store.ProposalNumbered(t, fileNumber).value));
      } else {
        assert Store.ProposalNumbered(t, fileNumber).None?;
        var url := fileCell.link.value;
        var p := ProposalFromPage(details[url]).value;
        assert r == Success(Store.WithProposal(t, p));
        var (t1, stored) := r.value;
        assert t1.proposals == t.proposals + [stored];
        var numbers := Store.FileNumbers(t1.proposals);
        assert numbers == Store.FileNumbers(t.proposals) + [fileNumber];
        assert Search.FirstIndexOf(numbers, fileNumber) == Some(|t.proposals|);
        assert Store.ProposalNumbered(t1, fileNumber) == Some(stored);
      }
    }
  }

  /** In a well-formed store the resolved proposal is a stored row that its id points at. */
  lemma ResolvedProposalStored(t: Store.Tables, details: map<string, DetailPage>, fileNumber: int, fileCell: Grid.Cell)
    requires Store.WellFormed(t)
    ensures var r := ResolvedProposal(t, details, fileNumber, fileCell);
      r.Success? ==>
        && Store.WellFormed(r.value.0) && Store.Extends(r.value.0, t)
        && r.value.0.events == t.events && r.value.0.votes == t.votes
        && Store.RefersTo(r.value.1.id, |r.value.0.proposals|)
  {
    var r := ResolvedProposal(t, details, fileNumber, fileCell);
    if r.Success? {
      match Store.ProposalNumbered(t, fileNumber)
      case Some(p) =>
        var i :| 0 <= i < |t.proposals| && t.proposals[i] == p;
      case None =>
        var p :| ProposalFromPage(details[fileCell.link.value]) == Success(p);
        Store.WithProposalKeepsWellFormed(t, p);
    }
  }

  // ---------------------------------------------------------------------------
  // Votes of one row

  /** The (supervisor, aye) pairs of a row: one per supervisor whose cell text is exactly Aye or No. */
  function Ballots(row: map<string, Grid.Cell>, supervisors: seq<string>): seq<(string, bool)>
    decreases |supervisors|
  {
    if supervisors == [] then []
    else
      var name := supervisors[0];
      var rest := Ballots(row, supervisors[1..]);
      if name in row && IsBallot(VoteCast(row, name)) then [(name, VoteCast(row, name) == "Aye")] + rest else rest
  }

  /** A supervisor gets a ballot exactly when the cell says Aye or No, and the ballot is an aye exactly for Aye. */
  lemma {:induction false} BallotsExactly(row: map<string, Grid.Cell>, supervisors: seq<string>, name: string, aye: bool)
    ensures (name, aye) in Ballots(row, supervisors) <==>
      && name in supervisors && name in row
      && IsBallot(VoteCast(row, name))
      && aye == (VoteCast(row, name) == "Aye")
    decreases |supervisors|
  {
    if supervisors != [] {
      BallotsExactly(row, supervisors[1..], name, aye);
      assert supervisors == [supervisors[0]] + supervisors[1..];
    }
  }

  /** Vote `v` in `t` is the ballot `ballot` cast at `event`. */
  ghost predicate RecordsBallot(t: Store.Tables, v: Store.Vote, ballot: (string, bool), event: Store.VoteEvent) {
    && v.voteEventId == event.id
    && v.ayeVote == ballot.1
    && Store.RefersTo(v.legislatorId, |t.legislators|)
    && t.legislators[v.legislatorId.value - 1].name == ballot.0
  }

  /**
   * One ballot stored: when the vote of the supervisor named `name` at `event` is
   * accepted, the store stays well formed, and only that legislator (if new) and
   * the vote are added.
   */
  lemma BallotStored(t: Store.Tables, name: string, event: Store.VoteEvent, aye: bool)
    requires Store.WellFormed(t) && Store.RefersTo(event.id, |t.events|)
    ensures var (t1, l) := Store.WithSupervisor(t, name);
      var v := Store.NewVote(l, event, aye);
      var r := Store.WithVote(t1, v);
      r.Success? ==>
        && Store.WellFormed(r.value) && Store.Extends(r.value, t)
        && r.value.proposals == t.proposals && r.value.events == t.events
        && r.value.votes == t.votes + [v]
        && Store.RefersTo(l.id, |r.value.legislators|) && r.value.legislators[l.id.value - 1] == l
  {
    var (t1, l) := Store.WithSupervisor(t, name);
    Store.WithSupervisorKeepsWellFormed(t, name);
    Store.WithVoteKeepsWellFormed(t1, Store.NewVote(l, event, aye));
  }

  /**
   * `u` is `t` with the votes for `ballots` appended in order, each at `event` and
   * by the legislator of that name, and with nothing else added but legislators.
   */
  ghost predicate RecordsRow(t: Store.Tables, u: Store.Tables, ballots: seq<(string, bool)>, event: Store.VoteEvent) {
    && Store.WellFormed(u) && Store.Extends(u, t)
    && u.proposals == t.proposals && u.events == t.events
    && |u.votes| == |t.votes| + |ballots|
    && forall k :: 0 <= k < |ballots| ==> RecordsBallot(u, u.votes[|t.votes| + k], ballots[k], event)
  }

  /** A first ballot stored in `t1`, then the later ballots recorded from `t1` to `u`, records them all from `t`. */
  lemma RecordsRowCons(
    t: Store.Tables, t1: Store.Tables, u: Store.Tables, v: Store.Vote, ballot: (string, bool),
    later: seq<(string, bool)>, event: Store.VoteEvent)
    requires Store.Extends(t1, t) && t1.proposals == t.proposals && t1.events == t.events
    requires t1.votes == t.votes + [v] && RecordsBallot(t1, v, ballot, event)
    requires RecordsRow(t1, u, later, event)
    ensures RecordsRow(t, u, [ballot] + later, event)
  {
    var ballots := [ballot] + later;
    forall k | 0 <= k < |ballots| ensures RecordsBallot(u, u.votes[|t.votes| + k], ballots[k], event) {
      if k == 0 {
        assert u.votes[|t.votes|] == t1.votes[|t.votes|] == v;
        assert u.legislators[v.legislatorId.value - 1] == t1.legislators[v.legislatorId.value - 1];
      } else {
        assert ballots[k] == later[k - 1];
        assert |t.votes| + k == |t1.votes| + (k - 1);
      }
    }
  }

  /**
   * When a row's votes are all accepted, the store stays well formed, only
   * legislators and votes are added, and the new votes are the row's ballots in
   * column order, each at `event` and by the legislator of that name.
   */
  lemma {:induction false} CastVotesRecordsBallots(
    t: Store.Tables, row: map<string, Grid.Cell>, supervisors: seq<string>, event: Store.VoteEvent)
    requires Store.WellFormed(t) && Store.RefersTo(event.id, |t.events|)
    ensures var r := CastVotes(t, row, supervisors, event);
      r.Success? ==> RecordsRow(t, r.value, Ballots(row, supervisors), event)
    decreases |supervisors|
  {
    var r := CastVotes(t, row, supervisors, event);
    if r.Success? && supervisors != [] {
      var name := supervisors[0];
      var rest := supervisors[1..];
      var voteCast := VoteCast(row, name);
      if IsBallot(voteCast) {
        BallotStored(t, name, event, voteCast == "Aye");
        var (t1, l) := Store.WithSupervisor(t, name);
        var v := Store.NewVote(l, event, voteCast == "Aye");
        var t2 := Store.WithVote(t1, v).value;
        CastVotesRecordsBallots(t2, row, rest, event);
        assert Ballots(row, supervisors) == [(name, voteCast == "Aye")] + Ballots(row, rest);
        RecordsRowCons(t, t2, r.value, v, (name, voteCast == "Aye"), Ballots(row, rest), event);
      } else {
        CastVotesRecordsBallots(t, row, rest, event);
      }
    }
  }

  /** Votes already stored at `event` belong to legislators whose names are not in `names`. */
  ghost predicate EventVotesOutside(t: Store.Tables, event: Store.VoteEvent, names: seq<string>) {
    forall i :: 0 <= i < |t.votes| && t.votes[i].voteEventId == event.id ==>
      && Store.RefersTo(t.votes[i].legislatorId, |t.legislators|)
      && t.legislators[t.votes[i].legislatorId.value - 1].name !in names
  }

  /**
   * One ballot of a supervisor who has not voted at `event` is accepted, and the
   * supervisors after it still have not voted there.
   */
  lemma CastVoteAccepted(t: Store.Tables, supervisors: seq<string>, event: Store.VoteEvent, aye: bool)
    requires Store.WellFormed(t) && Store.RefersTo(event.id, |t.events|)
    requires supervisors != [] && supervisors[0] !in supervisors[1..]
    requires EventVotesOutside(t, event, supervisors)
    ensures var (t1, l) := Store.WithSupervisor(t, supervisors[0]);
      var r := Store.WithVote(t1, Store.NewVote(l, event, aye));
      && r.Success? && Store.WellFormed(r.value) && r.value.events == t.events
      && EventVotesOutside(r.value, event, supervisors[1..])
  {
    var name := supervisors[0];
    var (t1, l) := Store.WithSupervisor(t, name);
    Store.WithSupervisorKeepsWellFormed(t, name);
    var v := Store.NewVote(l, event, aye);
    assert t1.votes == t.votes;
    assert Store.VoteKey(v) !in Store.Keys(t1.votes) by {
      var keys := Store.Keys(t1.votes);
      forall i | 0 <= i < |t1.votes| ensures keys[i] != Store.VoteKey(v) {
        if t1.votes[i].voteEventId == event.id {
          assert t.legislators[t.votes[i].legislatorId.value - 1] == t1.legislators[t.votes[i].legislatorId.value - 1];
        }
      }
    }
    BallotStored(t, name, event, aye);
    var t2 := Store.WithVote(t1, v).value;
    forall i | 0 <= i < |t2.votes| && t2.votes[i].voteEventId == event.id
      ensures Store.RefersTo(t2.votes[i].legislatorId, |t2.legislators|)
      ensures t2.legislators[t2.votes[i].legislatorId.value - 1].name !in supervisors[1..]
    {
      if i < |t.votes| {
        assert t2.votes[i] == t.votes[i];
        assert t.legislators[t.votes[i].legislatorId.value - 1] == t2.legislators[t.votes[i].legislatorId.value - 1];
      } else {
        assert t2.votes[i] == v;
      }
    }
  }

  /**
   * With votes linked to their event, the votes of one row never collide: when
   * every supervisor column is present, no two supervisors share a name and none
   * of them has voted at this event yet, all of the row's votes are accepted.
   */
  lemma {:induction false} CastVotesNeverCollide(
    t: Store.Tables, row: map<string, Grid.Cell>, supervisors: seq<string>, event: Store.VoteEvent)
    requires Store.WellFormed(t) && Store.RefersTo(event.id, |t.events|)
    requires forall k :: 0 <= k < |supervisors| ==> supervisors[k] in row
    requires forall j, k :: 0 <= j < k < |supervisors| ==> supervisors[j] != supervisors[k]
    requires EventVotesOutside(t, event, supervisors)
    ensures CastVotes(t, row, supervisors, event).Success?
    decreases |supervisors|
  {
    if supervisors != [] {
      var name := supervisors[0];
      var rest := supervisors[1..];
      assert forall k :: 0 <= k < |rest| ==> rest[k] == supervisors[k + 1];
      var voteCast := VoteCast(row, name);
      if IsBallot(voteCast) {
        CastVoteAccepted(t, supervisors, event, voteCast == "Aye");
        var (t1, l) := Store.WithSupervisor(t, name);
        var t2 := Store.WithVote(t1, Store.NewVote(l, event, voteCast == "Aye")).value;
        CastVotesNeverCollide(t2, row, rest, event);
      } else {
        CastVotesNeverCollide(t, row, rest, event);
      }
    }
  }

  /**
   * The inner loop of scrape_vote_page as written: each vote is built by
   * Vote(record_supervisor(name), db_proposal, aye), so it names no vote event.
   * Such a vote can never be stored (Store.AsWrittenVoteRefused), so the loop
   * ends at the first ballot with what the flush that inserts that vote says.
   */
  function CastVotesAsWritten(t: Store.Tables, row: map<string, Grid.Cell>, supervisors: seq<string>, proposal: Store.Proposal)
    : Result<Store.Tables, Fault>
    decreases |supervisors|
  {
    if supervisors == [] then Success(t)
    else
      var cell :- Column(row, supervisors[0]);
      var voteCast := Text.ExtractText(cell.text);
      if IsBallot(voteCast) then
        var (t1, legislator) := Store.WithSupervisor(t, supervisors[0]);
        Store.WithVote(t1, Store.NewVoteAsWritten(legislator, proposal, voteCast == "Aye"))
      else
        CastVotesAsWritten(t, row, supervisors[1..], proposal)
  }

  /**
   * As written, the first Aye or No of a row aborts the crawl: a row's votes are
   * stored only when it has no ballot at all, and then nothing is stored; when every
   * supervisor column is present and some cell is a ballot, the row fails on a
   * vote whose event column is empty.
   */
  lemma {:induction false} AsWrittenFirstBallotAborts(
    t: Store.Tables, row: map<string, Grid.Cell>, supervisors: seq<string>, proposal: Store.Proposal)
    ensures var r := CastVotesAsWritten(t, row, supervisors, proposal);
      r.Success? ==> Ballots(row, supervisors) == [] && r.value == t
    ensures var r := CastVotesAsWritten(t, row, supervisors, proposal);
      (forall k :: 0 <= k < |supervisors| ==> supervisors[k] in row) && Ballots(row, supervisors) != [] ==>
        r.Failure? && r.error.NullKey? && r.error.voteEventId.None?
    decreases |supervisors|
  {
    if supervisors != [] {
      var name := supervisors[0];
      var rest := supervisors[1..];
      assert forall k :: 0 <= k < |rest| ==> rest[k] == supervisors[k + 1];
      if name in row && IsBallot(VoteCast(row, name)) {
        var (t1, l) := Store.WithSupervisor(t, name);
        Store.AsWrittenVoteRefused(t1, l, proposal, VoteCast(row, name) == "Aye");
      } else {
        AsWrittenFirstBallotAborts(t, row, rest, proposal);
      }
    }
  }

  // ---------------------------------------------------------------------------
  // Rows, pages, listings and years

  /** The steps of a row before its votes: the file number, the action date and the proposal they resolve to. */
  datatype RowStart = RowStart(fileCell: Grid.Cell, fileNumber: int, actionDate: Dates.Date, resolved: (Store.Tables, Store.Proposal))

  /** How far a row gets before its votes, or the fault that stops it there. */
  function StartRow(t: Store.Tables, details: map<string, DetailPage>, row: map<string, Grid.Cell>): (r: Result<RowStart, Fault>)
    ensures r.Failure? ==>
      r.error.MissingColumn? || r.error.NotANumber? || r.error.BadDate? || r.error.NoLink? || r.error.MissingDetail?
  {
    var fileCell :- Column(row, FileColumn);
    var fileNumber :- NumberIn(fileCell.text);
    var dateCell :- Column(row, DateColumn);
    var actionDate :- DateIn(dateCell.text);
    var resolved :- ResolvedProposal(t, details, fileNumber, fileCell);
    Success(RowStart(fileCell, fileNumber, actionDate, resolved))
  }

  /** A row is its start, then a vote event for the resolved proposal, then its votes at that event. */
  lemma ScrapedRowSteps(t: Store.Tables, details: map<string, DetailPage>, row: map<string, Grid.Cell>, supervisors: seq<string>)
    ensures var s := StartRow(t, details, row);
      && (s.Failure? ==> ScrapedRow(t, details, row, supervisors) == Failure(s.error))
      && (s.Success? ==>
            && s.value.resolved == ResolvedProposal(t, details, s.value.fileNumber, s.value.fileCell).value
            && var (t1, event) := Store.WithVoteEvent(s.value.resolved.0, Store.NewVoteEvent(s.value.resolved.1, s.value.actionDate));
               ScrapedRow(t, details, row, supervisors) == CastVotes(t1, row, supervisors, event))
  {
  }

  /**
   * A row that is scraped adds exactly one vote event, for a stored proposal, and
   * one vote per ballot, keeping the store well formed.
   */
  lemma ScrapedRowAddsOneEvent(t: Store.Tables, details: map<string, DetailPage>, row: map<string, Grid.Cell>, supervisors: seq<string>)
    requires Store.WellFormed(t)
    ensures var r := ScrapedRow(t, details, row, supervisors);
      r.Success? ==>
        && Store.WellFormed(r.value) && Store.Extends(r.value, t)
        && |r.value.events| == |t.events| + 1
        && |r.value.votes| == |t.votes| + |Ballots(row, supervisors)|
  {
    ScrapedRowSteps(t, details, row, supervisors);
    var s := StartRow(t, details, row);
    if s.Success? {
      ResolvedProposalStored(t, details, s.value.fileNumber, s.value.fileCell);
      var (t0, proposal) := s.value.resolved;
      var e := Store.NewVoteEvent(proposal, s.value.actionDate);
      Store.WithVoteEventKeepsWellFormed(t0, e);
      var (t1, event) := Store.WithVoteEvent(t0, e);
      CastVotesRecordsBallots(t1, row, supervisors, event);
    }
  }

  /**
   * With votes linked to their event, a row whose supervisor columns are all
   * present and pairwise distinct never fails on a vote's primary key.
   */
  lemma ScrapedRowVotesNeverCollide(t: Store.Tables, details: map<string, DetailPage>, row: map<string, Grid.Cell>, supervisors: seq<string>)
    requires Store.WellFormed(t)
    requires forall k :: 0 <= k < |supervisors| ==> supervisors[k] in row
    requires forall j, k :: 0 <= j < k < |supervisors| ==> supervisors[j] != supervisors[k]
    ensures var r := ScrapedRow(t, details, row, supervisors);
      r.Failure? ==> !r.error.DuplicateVote? && !r.error.NullKey?
  {
    ScrapedRowSteps(t, details, row, supervisors);
    var s := StartRow(t, details, row);
    if s.Success? {
      ResolvedProposalStored(t, details, s.value.fileNumber, s.value.fileCell);
      var (t0, proposal) := s.value.resolved;
      var e := Store.NewVoteEvent(proposal, s.value.actionDate);
      Store.WithVoteEventKeepsWellFormed(t0, e);
      var (t1, event) := Store.WithVoteEvent(t0, e);
      assert t1.votes == t0.votes;
      assert EventVotesOutside(t1, event, supervisors) by {
        assert forall i :: 0 <= i < |t1.votes| ==> t1.votes[i].voteEventId != event.id;
      }
      CastVotesNeverCollide(t1, row, supervisors, event);
    }
  }

  /** The row loop adds one vote event per row and keeps the store well formed. */
  lemma {:induction false} ScrapedRowsAddOneEventPerRow(
    t: Store.Tables, details: map<string, DetailPage>, rows: seq<map<string, Grid.Cell>>, supervisors: seq<string>)
    requires Store.WellFormed(t)
    ensures var r := ScrapedRows(t, details, rows, supervisors);
      r.Success? ==>
        Store.WellFormed(r.value) && Store.Extends(r.value, t) && |r.value.events| == |t.events| + |rows|
    decreases |rows|
  {
    var r := ScrapedRows(t, details, rows, supervisors);
    if r.Success? && rows != [] {
      ScrapedRowAddsOneEvent(t, details, rows[0], supervisors);
      var t1 := ScrapedRow(t, details, rows[0], supervisors).value;
      ScrapedRowsAddOneEventPerRow(t1, details, rows[1..], supervisors);
    }
  }

  /**
   * A page is scraped only when its first six headers are the fixed columns, and it
   * then adds one vote event per grid row, keeping the store well formed.
   */
  lemma ScrapedPageChecksHeaders(t: Store.Tables, details: map<string, DetailPage>, table: Grid.Table)
    requires Store.WellFormed(t)
    ensures var r := ScrapedPage(t, details, table);
      var headers := Text.Texts(table.headerTexts);
      r.Success? ==>
        && |headers| >= 6 && headers[..6] == FixedColumns
        && Store.WellFormed(r.value) && Store.Extends(r.value, t)
        && |r.value.events| == |t.events| + |table.rows|
  {
    var headers := Text.Texts(table.headerTexts);
    if ScrapedPage(t, details, table).Success? {
      ScrapedRowsAddOneEventPerRow(t, details, RowMaps(headers, table.rows), headers[6..]);
    }
  }

  /**
   * scrape_vote_listing scrapes exactly the pages of the walk from page `p`: p, p+1, ...,
   * up to the first page that cannot be selected.
   */
  lemma {:induction false} ScrapedListingFollowsWalk(
    t: Store.Tables, details: map<string, DetailPage>, listing: Navigation.Listing, block: nat, p: nat)
    requires block <= |listing.pager|
    ensures ScrapedListing(t, details, listing, block, p)
      == ScrapedPages(t, details, listing.pages, Navigation.PageWalk(Navigation.Labels(listing.pager), block, p).pages)
    decreases Navigation.PageBound(Navigation.Labels(listing.pager)) - p
  {
    var o := Navigation.GoToPage(Navigation.Labels(listing.pager), block, Text.DecimalString(p));
    if o.Reached? {
      Navigation.ReachedBelowBound(Navigation.Labels(listing.pager), block, p);
      var rest := Navigation.PageWalk(Navigation.Labels(listing.pager), o.block, p + 1);
      assert Navigation.PageWalk(Navigation.Labels(listing.pager), block, p).pages == [p] + rest.pages;
      assert ([p] + rest.pages)[1..] == rest.pages;
      var page := ScrapedPage(t, details, Navigation.GridAt(listing.pages, Text.DecimalString(p)));
      if page.Success? {
        ScrapedListingFollowsWalk(page.value, details, listing, o.block, p + 1);
      }
    }
  }

  /** Scraping a listing keeps the store well formed and only appends to it. */
  lemma {:induction false} ScrapedListingWellFormed(
    t: Store.Tables, details: map<string, DetailPage>, listing: Navigation.Listing, block: nat, p: nat)
    requires block <= |listing.pager| && Store.WellFormed(t)
    ensures var r := ScrapedListing(t, details, listing, block, p);
      r.Success? ==> Store.WellFormed(r.value) && Store.Extends(r.value, t)
    decreases Navigation.PageBound(Navigation.Labels(listing.pager)) - p
  {
    var o := Navigation.GoToPage(Navigation.Labels(listing.pager), block, Text.DecimalString(p));
    if o.Reached? {
      Navigation.ReachedBelowBound(Navigation.Labels(listing.pager), block, p);
      var table := Navigation.GridAt(listing.pages, Text.DecimalString(p));
      ScrapedPageChecksHeaders(t, details, table);
      var page := ScrapedPage(t, details, table);
      if page.Success? {
        ScrapedListingWellFormed(page.value, details, listing, o.block, p + 1);
      }
    }
  }

  /** One step of the year loop: select the year's option, scrape its listing, go on with the next year. */
  lemma CrawledYearsStep(
    t: Store.Tables, details: map<string, DetailPage>,
    options: seq<string>, listings: seq<Navigation.Listing>, year: int, lastYear: int)
    requires |options| == |listings| && year <= lastYear
    ensures var k := Search.FirstIndexOf(Text.Texts(options), Text.IntString(year));
      var r := CrawledYears(t, details, options, listings, year, lastYear);
      && (k.None? ==> r == Failure(YearNotFound(year)))
      && (k.Some? ==>
            var listing := ScrapedListing(t, details, listings[k.value], 0, 1);
            && (listing.Failure? ==> r == Failure(listing.error))
            && (listing.Success? ==> r == CrawledYears(listing.value, details, options, listings, year + 1, lastYear)))
  {
  }

  /** A crawl that succeeds found every year of its range among the dropdown's option texts. */
  lemma {:induction false} CrawledYearsNeedsEveryYear(
    t: Store.Tables, details: map<string, DetailPage>,
    options: seq<string>, listings: seq<Navigation.Listing>, year: int, lastYear: int)
    requires |options| == |listings|
    ensures CrawledYears(t, details, options, listings, year, lastYear).Success? ==>
      forall y :: year <= y <= lastYear ==> Text.IntString(y) in Text.Texts(options)
    decreases lastYear + 1 - year
  {
    var r := CrawledYears(t, details, options, listings, year, lastYear);
    if r.Success? && year <= lastYear {
      var i := Search.FirstIndexOf(Text.Texts(options), Text.IntString(year)).value;
      var t1 := ScrapedListing(t, details, listings[i], 0, 1).value;
      CrawledYearsNeedsEveryYear(t1, details, options, listings, year + 1, lastYear);
      assert Text.IntString(year) in Text.Texts(options);
      forall y | year <= y <= lastYear ensures Text.IntString(y) in Text.Texts(options) {
        if y > year {
          assert year + 1 <= y;
        }
      }
    }
  }

  /** A crawl that succeeds leaves a well-formed store that extends the one it started from. */
  lemma {:induction false} CrawledYearsWellFormed(
    t: Store.Tables, details: map<string, DetailPage>,
    options: seq<string>, listings: seq<Navigation.Listing>, year: int, lastYear: int)
    requires |options| == |listings| && Store.WellFormed(t)
    ensures var r := CrawledYears(t, details, options, listings, year, lastYear);
      r.Success? ==> Store.WellFormed(r.value) && Store.Extends(r.value, t)
    decreases lastYear + 1 - year
  {
    var r := CrawledYears(t, details, options, listings, year, lastYear);
    if r.Success? && year <= lastYear {
      var i := Search.FirstIndexOf(Text.Texts(options), Text.IntString(year)).value;
      ScrapedListingWellFormed(t, details, listings[i], 0, 1);
      var t1 := ScrapedListing(t, details, listings[i], 0, 1).value;
      CrawledYearsWellFormed(t1, details, options, listings, year + 1, lastYear);
    }
  }

  // ---------------------------------------------------------------------------
  // Unique file numbers

  /** A file-number cell that links to a known detail page shows the number that page carries. */
  predicate CellAgrees(details: map<string, DetailPage>, cell: Grid.Cell) {
    cell.link.Some? && cell.link.value in details ==> NumberIn(details[cell.link.value].fileText) == NumberIn(cell.text)
  }

  /** Every cell of the grid agrees with the detail page it links to. */
  predicate GridAgrees(details: map<string, DetailPage>, table: Grid.Table) {
    forall i, c :: 0 <= i < |table.rows| && c in table.rows[i] ==> CellAgrees(details, c)
  }

  /** Every grid of the listing agrees with the detail pages. */
  predicate ListingAgrees(details: map<string, DetailPage>, listing: Navigation.Listing) {
    forall pageLabel :: pageLabel in listing.pages ==> GridAgrees(details, listing.pages[pageLabel])
  }

  /**
   * When the row's file cell agrees with its detail page, the proposal resolved
   * for file number n has number n, and no file number is stored twice afterwards.
   */
  lemma ResolvedProposalKeepsNumbersUnique(t: Store.Tables, details: map<string, DetailPage>, fileNumber: int, fileCell: Grid.Cell)
    requires Store.UniqueNumbers(t)
    requires NumberIn(fileCell.text) == Success(fileNumber) && CellAgrees(details, fileCell)
    ensures var r := ResolvedProposal(t, details, fileNumber, fileCell);
      r.Success? ==> Store.UniqueNumbers(r.value.0) && r.value.1.fileNumber == fileNumber
  {
    var r := ResolvedProposal(t, details, fileNumber, fileCell);
    if r.Success? && Store.ProposalNumbered(t, fileNumber).None? {
      var page := details[fileCell.link.value];
      ProposalFromPageExactly(page);
      var p := ProposalFromPage(page).value;
      assert p.fileNumber == fileNumber;
      var numbers := Store.FileNumbers(t.proposals);
      forall i | 0 <= i < |t.proposals| ensures t.proposals[i].fileNumber != fileNumber {
        assert numbers[i] == t.proposals[i].fileNumber;
      }
      assert r.value.0.proposals == t.proposals + [r.value.1];
    }
  }

  /** A row whose file cell agrees with its detail page keeps the file numbers unique. */
  lemma ScrapedRowKeepsNumbersUnique(t: Store.Tables, details: map<string, DetailPage>, row: map<string, Grid.Cell>, supervisors: seq<string>)
    requires Store.WellFormed(t) && Store.UniqueNumbers(t)
    requires FileColumn in row ==> CellAgrees(details, row[FileColumn])
    ensures var r := ScrapedRow(t, details, row, supervisors);
      r.Success? ==> Store.UniqueNumbers(r.value)
  {
    ScrapedRowSteps(t, details, row, supervisors);
    var s := StartRow(t, details, row);
    if s.Success? {
      ResolvedProposalStored(t, details, s.value.fileNumber, s.value.fileCell);
      ResolvedProposalKeepsNumbersUnique(t, details, s.value.fileNumber, s.value.fileCell);
      var (t0, proposal) := s.value.resolved;
      var e := Store.NewVoteEvent(proposal, s.value.actionDate);
      Store.WithVoteEventKeepsWellFormed(t0, e);
      var (t1, event) := Store.WithVoteEvent(t0, e);
      CastVotesRecordsBallots(t1, row, supervisors, event);
    }
  }

  /** The row loop keeps the file numbers unique when every row's file cell agrees with its detail page. */
  lemma {:induction false} ScrapedRowsKeepNumbersUnique(
    t: Store.Tables, details: map<string, DetailPage>, rows: seq<map<string, Grid.Cell>>, supervisors: seq<string>)
    requires Store.WellFormed(t) && Store.UniqueNumbers(t)
    requires forall i :: 0 <= i < |rows| && FileColumn in rows[i] ==> CellAgrees(details, rows[i][FileColumn])
    ensures var r := ScrapedRows(t, details, rows, supervisors);
      r.Success? ==> Store.UniqueNumbers(r.value)
    decreases |rows|
  {
    var r := ScrapedRows(t, details, rows, supervisors);
    if r.Success? && rows != [] {
      ScrapedRowAddsOneEvent(t, details, rows[0], supervisors);
      ScrapedRowKeepsNumbersUnique(t, details, rows[0], supervisors);
      var t1 := ScrapedRow(t, details, rows[0], supervisors).value;
      assert forall i :: 0 <= i < |rows[1..]| ==> rows[1..][i] == rows[i + 1];
      ScrapedRowsKeepNumbersUnique(t1, details, rows[1..], supervisors);
    }
  }

  /** A page whose cells agree with their detail pages keeps the file numbers unique. */
  lemma ScrapedPageKeepsNumbersUnique(t: Store.Tables, details: map<string, DetailPage>, table: Grid.Table)
    requires Store.WellFormed(t) && Store.UniqueNumbers(t) && GridAgrees(details, table)
    ensures var r := ScrapedPage(t, details, table);
      r.Success? ==> Store.UniqueNumbers(r.value)
  {
    var headers := Text.Texts(table.headerTexts);
    var rows := RowMaps(headers, table.rows);
    forall i | 0 <= i < |rows| && FileColumn in rows[i] ensures CellAgrees(details, rows[i][FileColumn]) {
      var cells := table.rows[i];
      Grid.ZipPrefixValues(headers, cells, Grid.Min(|headers|, |cells|));
      assert rows[i][FileColumn] in cells;
    }
    if HeadersOk(headers) {
      ScrapedRowsKeepNumbersUnique(t, details, rows, headers[6..]);
    }
  }

  /** A listing whose grids agree with the detail pages keeps the file numbers unique. */
  lemma {:induction false} ScrapedListingKeepsNumbersUnique(
    t: Store.Tables, details: map<string, DetailPage>, listing: Navigation.Listing, block: nat, p: nat)
    requires block <= |listing.pager| && Store.WellFormed(t) && Store.UniqueNumbers(t)
    requires ListingAgrees(details, listing)
    ensures var r := ScrapedListing(t, details, listing, block, p);
      r.Success? ==> Store.UniqueNumbers(r.value)
    decreases Navigation.PageBound(Navigation.Labels(listing.pager)) - p
  {
    var o := Navigation.GoToPage(Navigation.Labels(listing.pager), block, Text.DecimalString(p));
    if o.Reached? {
      Navigation.ReachedBelowBound(Navigation.Labels(listing.pager), block, p);
      var table := Navigation.GridAt(listing.pages, Text.DecimalString(p));
      assert GridAgrees(details, table);
      ScrapedPageChecksHeaders(t, details, table);
      ScrapedPageKeepsNumbersUnique(t, details, table);
      var page := ScrapedPage(t, details, table);
      if page.Success? {
        ScrapedListingKeepsNumbersUnique(page.value, details, listing, o.block, p + 1);
      }
    }
  }

  /**
   * A crawl over listings whose grids agree with the detail pages never stores
   * two proposals with the same file number.
   */
  lemma {:induction false} CrawledYearsKeepNumbersUnique(
    t: Store.Tables, details: map<string, DetailPage>,
    options: seq<string>, listings: seq<Navigation.Listing>, year: int, lastYear: int)
    requires |options| == |listings| && Store.WellFormed(t) && Store.UniqueNumbers(t)
    requires forall k :: 0 <= k < |listings| ==> ListingAgrees(details, listings[k])
    ensures var r := CrawledYears(t, details, options, listings, year, lastYear);
      r.Success? ==> Store.UniqueNumbers(r.value)
    decreases lastYear + 1 - year
  {
    var r := CrawledYears(t, details, options, listings, year, lastYear);
    if r.Success? && year <= lastYear {
      var i := Search.FirstIndexOf(Text.Texts(options), Text.IntString(year)).value;
      ScrapedListingWellFormed(t, details, listings[i], 0, 1);
      ScrapedListingKeepsNumbersUnique(t, details, listings[i], 0, 1);
      var t1 := ScrapedListing(t, details, listings[i], 0, 1).value;
      CrawledYearsKeepNumbersUnique(t1, details, options, listings, year + 1, lastYear);
    }
  }

  /**
   * As written, nothing compares the detail page's file number with the row's: a
   * row listed under a new number that links to the page of a stored proposal
   * stores a second proposal with that stored number.
   */
  lemma MislinkedPageDuplicatesNumber(t: Store.Tables, details: map<string, DetailPage>, fileNumber: int, fileCell: Grid.Cell)
    requires fileNumber !in Store.FileNumbers(t.proposals)
    requires fileCell.link.Some? && fileCell.link.value in details
    requires var p := ProposalFromPage(details[fileCell.link.value]);
      p.Success? && p.value.fileNumber in Store.FileNumbers(t.proposals)
    ensures var r := ResolvedProposal(t, details, fileNumber, fileCell);
      r.Success? && r.value.1.fileNumber != fileNumber && !Store.UniqueNumbers(r.value.0)
  {
    var p := ProposalFromPage(details[fileCell.link.value]).value;
    var numbers := Store.FileNumbers(t.proposals);
    var i :| 0 <= i < |numbers| && numbers[i] == p.fileNumber;
    var r := ResolvedProposal(t, details, fileNumber, fileCell);
    assert r == Success(Store.WithProposal(t, p));
    assert r.value.0.proposals[i].fileNumber == r.value.0.proposals[|t.proposals|].fileNumber;
  }

  /**
   * find_proposal or scrape_proposal_page with the check the scraper evidently
   * relies on: a detail page whose file number differs from the row's is refused.
   */
  function ResolvedProposalChecked(t: Store.Tables, details: map<string, DetailPage>, fileNumber: int, fileCell: Grid.Cell)
    : Result<(Store.Tables, Store.Proposal), Fault>
  {
    var (t1, p) :- ResolvedProposal(t, details, fileNumber, fileCell);
    if p.fileNumber != fileNumber then Failure(NumberMismatch(fileNumber, p.fileNumber)) else Success((t1, p))
  }

  /** The checked lookup never stores a file number twice, whatever the detail pages say. */
  lemma ResolvedProposalCheckedKeepsNumbersUnique(t: Store.Tables, details: map<string, DetailPage>, fileNumber: int, fileCell: Grid.Cell)
    requires Store.UniqueNumbers(t)
    ensures var r := ResolvedProposalChecked(t, details, fileNumber, fileCell);
      r.Success? ==> Store.UniqueNumbers(r.value.0) && r.value.1.fileNumber == fileNumber
  {
    var r := ResolvedProposalChecked(t, details, fileNumber, fileCell);
    if r.Success? && Store.ProposalNumbered(t, fileNumber).None? {
      var numbers := Store.FileNumbers(t.proposals);
      forall i | 0 <= i < |t.proposals| ensures t.proposals[i].fileNumber != fileNumber {
        assert numbers[i] == t.proposals[i].fileNumber;
      }
      var p := ProposalFromPage(details[fileCell.link.value]).value;
      assert r.value.0.proposals == t.proposals + [p.(id := Some(|t.proposals| + 1))];
    }
  }

  /** Where the row's file cell agrees with its detail page, the check changes nothing. */
  lemma ResolvedProposalCheckedAgrees(t: Store.Tables, details: map<string, DetailPage>, fileNumber: int, fileCell: Grid.Cell)
    requires NumberIn(fileCell.text) == Success(fileNumber) && CellAgrees(details, fileCell)
    ensures ResolvedProposalChecked(t, details, fileNumber, fileCell) == ResolvedProposal(t, details, fileNumber, fileCell)
  {
    var r := ResolvedProposal(t, details, fileNumber, fileCell);
    if r.Success? && Store.ProposalNumbered(t, fileNumber).None? {
      ProposalFromPageExactly(details[fileCell.link.value]);
    }
  }
}
