# San Francisco Board of Supervisors vote scraper, modelled in Dafny

The scraper walks the Board of Supervisors' vote listings year by year:

- It picks each year in a dropdown.
- It pages through a grid of votes. The pager shows blocks of page links and an ellipsis link that reveals the next block.
- For every grid row it:
  - finds or scrapes the proposal the row is about,
  - records one vote event,
  - records one vote per supervisor column that reads "Aye" or "No".

Everything goes into one database session. The session is committed once at the end and rolled back on any error.

This project models that engine with the browser replaced by plain data:

- A dropdown is its option texts.
- A pager is a sequence of blocks of raw link texts.
- A grid is header texts plus rows of cells.
- A proposal detail page is the raw text of its labels.

The modules are:

- `Text` (`text.dfy`): `extract_text`, Python's `str()` of a number, and `int()` on digit strings.
- `Dates` (`dates.dfy`): `parse_date`, with the calendar checks of `datetime.date`.
- `Grid` (`grid.dfy`): `extract_grid_cells`, which zips headers against cells by position.
- `Search` (`search.dfy`): the first-match search shared by the two browser helpers.
- `Navigation` (`navigation.dfy`):
  - a `Browser` class whose fields are the page state the helpers change;
  - `select_dropdown_option` and `select_grid_page`;
  - the pager search as a function over the link texts;
  - a termination measure for the page walk, which the Python code lacks.
- `Store` (`store.dfy`):
  - the four tables of `db.py`, with ids assigned by the store;
  - find-or-create over them;
  - a `Session` class with a pending and a committed state.
- `Faults` (`faults.dfy`): the exceptions that abort a crawl.
- `Scrape` (`scrape.dfy`): what each scraping function does to the tables, as functions on values, with lemmas about them.
- `Crawl` (`crawl.dfy`): the scraping functions as loops over the browser and the session. Each is proved to end in the state the matching `Scrape` function gives, or with the fault it names.


The crawl (`Scrape` and `Crawl`) models the program with the first two slips listed under "## Findings" corrected. The third slip, an unchecked file number, is kept as the source has it (see `Scrape.ResolvedProposal` under "## Left out"). A vote names the vote event of its row (`Store.NewVote`). A proposal's type is read from the page's type label (`DetailPage.typeText`, a label the source never reads). The code as written is modelled beside the crawl (`Store.NewVoteAsWritten`, `Scrape.CastVotesAsWritten`, `Scrape.ProposalFromPageAsWritten`), and lemmas state where the two differ.

## Model

| member | source | states |
|---|---|---|
| Text.ExtractText | collect.py:242-247 | extract_text: the element's text with each non-breaking space turned into a space, then stripped of Python 3 white space at both ends |
| Text.ExtractTextClean | collect.py:242-247 | the extracted text is no longer than the raw text, contains no non-breaking space, and neither starts nor ends with whitespace |
| Text.ExtractTextIdempotent | collect.py:242-247 | extracting the text of an extracted text changes nothing |
| Text.NbspToSpaceSpec | collect.py:247 | the replace keeps the length, turns each non-breaking space into a plain space, and leaves every other character alone |
| Text.TrimStartSpec | collect.py:247 | the left trim is the suffix after a run of whitespace, and it does not start with whitespace |
| Text.TrimEndSpec | collect.py:247 | the right trim is the prefix before a run of whitespace, and it does not end with whitespace |
| Text.StripIsTrimmedSlice | collect.py:247 | strip returns a contiguous slice of its input; everything cut away on either side is whitespace |
| Text.StripUnchanged | collect.py:247 | a text without surrounding whitespace is left as it is by strip |
| Text.NbspToSpaceUnchanged | collect.py:247 | a text without non-breaking spaces is left as it is by the replace |
| Text.DecimalString | collect.py:198 | str() of a natural number is a non-empty digit string without a leading zero |
| Text.ParseInt | collect.py:29 | int() of a digit string succeeds exactly when the string is non-empty and all ASCII digits |
| Text.ParseDecimal | collect.py:198 | int() reads back the number str() wrote |
| Text.DecimalStringInjective | collect.py:198-201 | two page numbers with the same decimal string are equal, so a label names one page |
| Text.DecimalStringBound | collect.py:198 | a number whose decimal string has at most k digits is below 10^k |
| Dates.DaysInMonth | collect.py:261 | every month has 28 to 31 days, and it has 29 exactly in February of a leap year |
| Dates.Split | collect.py:260 | split on '/' returns at least one field, none containing '/', and joining the fields gives back the input |
| Dates.SplitJoin | collect.py:260 | splitting a join of '/'-free fields returns those fields |
| Dates.ParseDate | collect.py:255-261 | a parsed date is always a valid calendar date |
| Dates.ParseDateExactly | collect.py:255-261 | parse_date yields d exactly when the text splits into three numeric fields m/d/y and d is that valid date |
| Dates.ParseFormatted | collect.py:255-261 | every valid date written as m/d/y parses back to itself |
| Search.FirstIndexOf | collect.py:179-185 | the search returns the first position holding the item, and returns nothing exactly when the item is absent |
| Grid.ExtractGridCells | collect.py:216-240 | the headers are the extracted header texts; there is one dict per body row, in row order, each zipped by position against the headers |
| Grid.ZipRows | collect.py:231-238 | the row loop builds one positional dict per row, in order |
| Grid.ZipPrefixKeys | collect.py:235-236 | after n rounds of the zip loop, the dict's keys are exactly the first n headers |
| Grid.ZipPrefixValues | collect.py:235-236 | every value the zip loop puts in a row dict is one of that row's cells |
| Grid.ZipPrefixLastWins | collect.py:235-236 | a header that does not repeat later is bound to the cell at its own position |
| Grid.RowMapByPosition | collect.py:233-236 | the row dict's keys are the headers up to the shorter of the two lists; each header's last occurrence is bound to the cell below it |
| Navigation.Browser.constructor | collect.py:127-134 | a new browser holds the year dropdown and its listings, with no pager loaded |
| Navigation.GoToPage | collect.py:199-213 | the search never moves backwards; it ends at a block of the pager, or one past the last when it followed the last block's ellipsis |
| Navigation.SelectDropdownOption | collect.py:157-185 | returns true exactly when some option's text equals the wanted text; then it loads the listing of the first such option, and otherwise changes nothing |
| Navigation.ScanSpans | collect.py:199-213 | one pass over the shown links reports a hit at the first matching link, or "more" exactly when nothing matches and the last link is an ellipsis, or a miss |
| Navigation.SelectGridPage | collect.py:187-213 | returns true exactly when the pager search for the page's decimal string reaches a link; it ends in the block where the search ended and shows that page only on success |
| Navigation.GoToPageReached | collect.py:199-213 | the search reaches a block exactly when that block holds the label and every block before it lacks the label but ends in an ellipsis; it picks the first matching link there |
| Navigation.ReachableStep | collect.py:205-211 | after a block without the label that ends in an ellipsis, the search continues exactly as it would from the next block |
| Navigation.NotReachableHere | collect.py:205-213 | a block that has neither the label nor a trailing ellipsis ends the search |
| Navigation.GoToPageAbsent | collect.py:205-213 | a label absent from every remaining block is never reached, and the selection returns false |
| Navigation.MaxLength | collect.py:194-196 | no link text in a block is longer than the block's maximum |
| Navigation.MaxLabelLength | collect.py:194-196 | no link text anywhere in the pager is longer than the pager's maximum |
| Navigation.ReachedBelowBound | collect.py:116-120 | only page numbers below 10^(longest label length) can be selected, so page_number cannot grow without end |
| Navigation.PageWalk | collect.py:116-120 | the walk's end block is at most the number of blocks: a block of the pager, or one past the last when the final search ran off its end |
| Navigation.PageWalkConsecutive | collect.py:116-120 | the listing loop selects pages p, p+1, p+2, ... in order, without gaps |
| Navigation.PageWalkStops | collect.py:116-120 | the loop stops at the first page after those it selected that cannot be selected from where it stands |
| Store.NewLegislator | db.py:26-27 | Legislator(name): only the name is set; the id is left to the store |
| Store.NewProposal | db.py:44-46 | Proposal(file_number, title): status, type and introduction date stay empty until the caller sets them |
| Store.NewVoteEvent | db.py:60-62 | VoteEvent(proposal, vote_date): the event points at the proposal's row |
| Store.NewVoteAsWritten | db.py:76-79 | Vote(legislator, proposal, aye) as written: the proposal lands on an attribute the votes table lacks, so the vote event column stays empty |
| Store.NewVote | db.py:72-79 | the vote as evidently intended: it carries the legislator's id and the id of its row's vote event |
| Store.LegislatorNamed | collect.py:272 | the query finds a legislator exactly when the name is stored, and returns a stored row with that name |
| Store.ProposalNumbered | collect.py:285-288 | the query finds a proposal exactly when the file number is stored, and returns a stored row with that number |
| Store.WithSupervisor | collect.py:266-278 | record_supervisor returns a stored legislator with the name; it adds a row, with the next id, exactly when the name was missing |
| Store.WithProposal | db.py:35 | adding and flushing a proposal appends it with the next id |
| Store.WithVoteEvent | db.py:54 | adding and flushing a vote event appends it with the next id |
| Store.WithVote | db.py:72-73 | a vote is refused exactly when a key column is empty (a NOT NULL fault naming the key) or its (legislator id, vote event id) pair is already stored (a duplicate-key fault); otherwise it is appended |
| Store.WithSupervisorKeepsWellFormed | collect.py:266-278 | record_supervisor keeps ids sequential and names unique, and the returned legislator is the row its id names |
| Store.WithSupervisorIdempotent | collect.py:266-278 | a second record_supervisor for the same name adds nothing and returns the same legislator |
| Store.WithProposalKeepsWellFormed | db.py:35-46 | adding a proposal keeps the store well formed |
| Store.WithVoteEventKeepsWellFormed | db.py:54-62 | adding an event for a stored proposal keeps the store well formed; no stored vote points at the new event |
| Store.WithVoteKeepsWellFormed | db.py:72-73 | an accepted vote that links a stored legislator to a stored event keeps the store well formed |
| Store.AsWrittenVoteRefused | db.py:72-79 | as written, every vote is refused: its vote event column is empty, and the primary key columns are NOT NULL |
| Store.AsWrittenVoteUnlinked | db.py:76-79 | as written, a vote names no vote event, and a store holding it would not be well formed |
| Store.Session.constructor | db.py:82 | a new session's pending and committed states are the saved tables |
| Store.Session.QueryLegislator | collect.py:272 | the loop finds a stored legislator with the name exactly when one is stored, the one the query gives |
| Store.Session.RecordSupervisor | collect.py:266-278 | the session moves to the tables record_supervisor gives and returns its legislator; nothing is committed |
| Store.Session.FindProposal | collect.py:280-288 | the loop finds a stored proposal with the file number exactly when one is stored, the one the query gives |
| Store.Session.AddProposal | collect.py:52-53 | the proposal is appended with the next id and returned |
| Store.Session.AddVoteEvent | collect.py:96-98 | the vote event is appended with the next id and returned |
| Store.Session.AddVote | collect.py:103-107 | the vote is appended, or refused with the NOT NULL or duplicate-key fault and the session left unchanged |
| Store.Session.Commit | collect.py:147 | the pending state becomes the committed state |
| Store.Session.Rollback | collect.py:148-150 | the pending state goes back to the committed state |
| Scrape.ProposalFromPageAsWritten | collect.py:29-50 | the record scrape_proposal_page builds as written: the file number through int(), the title and status from their labels, and both the type and the introduction date from the introduction-date label |
| Scrape.ProposalFromPage | collect.py:29-50 | the record as evidently intended: the same, except that the type is read from the page's type label |
| Scrape.ProposalFromPageExactly | collect.py:29-50 | a detail page yields a proposal exactly when its file number is a number and its introduction date parses; all other fields are taken from the labels |
| Scrape.AsWrittenTypeIsTheDate | collect.py:35-45 | as written, the proposal's type is the introduction-date text, which parses to its own introduction date |
| Scrape.ProposalFromPageFixesType | collect.py:35-37 | reading the type from the type label fails in the same cases; it differs from the as-written record only in the type |
| Scrape.ScrapedProposal | collect.py:21-56 | scrape_proposal_page: a missing page is a fault; otherwise the page's proposal is added and flushed, and returned |
| Scrape.ResolvedProposal | collect.py:91-94 | `find_proposal(n) or scrape_proposal_page(...)`: the stored proposal numbered n, or else the proposal of the page the file cell links to, a cell without a link being a fault |
| Scrape.ResolvedProposalFindOrCreate | collect.py:91-94 | a file number already stored gives the stored proposal and adds no row |
| Scrape.ResolvedProposalIdempotent | collect.py:91-94 | when the proposal resolved carries the row's number, resolving the same row again finds it and adds nothing |
| Scrape.ResolvedProposalStored | collect.py:91-94 | a resolved proposal is stored, the store stays well formed, and no event or vote is added |
| Scrape.BallotsExactly | collect.py:100-107 | a supervisor casts a ballot exactly when their column is present and reads exactly "Aye" or "No"; the vote is aye exactly when the cell reads "Aye" |
| Scrape.CastVotes | collect.py:100-107 | the supervisor loop: a missing column is a fault; each "Aye" or "No" records the supervisor and adds their vote at the row's event |
| Scrape.CastVotesRecordsBallots | collect.py:100-107 | accepted row votes keep the store well formed; they are the row's ballots in column order, each cast at the row's event by the legislator of that name |
| Scrape.CastVotesNeverCollide | collect.py:100-107 | with votes linked to their event, distinct supervisor columns that have not voted at this event are all accepted |
| Scrape.CastVotesAsWritten | collect.py:100-107 | the supervisor loop as written: it ends at the first "Aye" or "No" with what storing that event-less vote gives |
| Scrape.AsWrittenFirstBallotAborts | collect.py:100-107 | as written, a row's votes succeed only when the row has no ballot, and then nothing changes; with every supervisor column present, the first ballot fails on a vote whose vote event key is empty |
| Scrape.StartRow | collect.py:85-94 | the steps of a row before its vote event fail only on a missing column, a file number that is not a number, a bad date, a missing link or a missing detail page |
| Scrape.ScrapedRow | collect.py:84-107 | one pass of the row loop: the file number and action date are read, the proposal is resolved, one vote event is added for it, then the votes are cast at that event |
| Scrape.ScrapedRowAddsOneEvent | collect.py:96-98 | each scraped row adds exactly one vote event and one vote per ballot |
| Scrape.ScrapedRowVotesNeverCollide | collect.py:100-107 | with votes linked to their event, a row with distinct present supervisor columns never fails on a duplicate vote or an empty key |
| Scrape.ScrapedRowsAddOneEventPerRow | collect.py:84-107 | a page's rows add one vote event per row, with no deduplication |
| Scrape.ScrapedPage | collect.py:58-107 | scrape_vote_page: a header mismatch is a fault; otherwise every grid row is scraped in order, with the columns after the sixth as supervisors |
| Scrape.ScrapedPageChecksHeaders | collect.py:64-76 | a page is scraped only if its first six headers are the fixed columns; it then adds one event per grid row |
| Scrape.ScrapedListing | collect.py:111-120 | scrape_vote_listing: page p is selected from the current block and scraped, then p+1, until a selection fails |
| Scrape.ScrapedListingFollowsWalk | collect.py:116-120 | scraping a listing is scraping, in order, the pages the walk selects |
| Scrape.ScrapedListingWellFormed | collect.py:116-120 | a listing scraped without fault leaves the store well formed and only adds rows |
| Scrape.CrawledYears | collect.py:137-145 | the year loop: a year missing from the dropdown is a fault; otherwise the listing of its option is scraped, then the next year |
| Scrape.CrawledYearsNeedsEveryYear | collect.py:137-143 | a crawl succeeds only if every year in the range is a dropdown option |
| Scrape.CrawledYearsWellFormed | collect.py:136-145 | a successful crawl leaves the store well formed and only adds rows |
| Scrape.ResolvedProposalKeepsNumbersUnique | collect.py:91-94 | when the file cell's link leads to a page with the row's number, the resolved proposal has that number and no file number is stored twice |
| Scrape.ScrapedRowKeepsNumbersUnique | collect.py:84-107 | a row whose file cell agrees with its detail page keeps file numbers unique |
| Scrape.ScrapedRowsKeepNumbersUnique | collect.py:84-107 | the row loop keeps file numbers unique when every row's file cell agrees with its detail page |
| Scrape.ScrapedPageKeepsNumbersUnique | collect.py:58-107 | a page whose cells agree with their detail pages keeps file numbers unique |
| Scrape.ScrapedListingKeepsNumbersUnique | collect.py:111-120 | a listing whose grids agree with the detail pages keeps file numbers unique |
| Scrape.CrawledYearsKeepNumbersUnique | collect.py:137-145 | a crawl over agreeing listings never stores two proposals with the same file number |
| Scrape.MislinkedPageDuplicatesNumber | collect.py:85-94 | as written, a new row number whose link leads to the page of a stored proposal stores a second proposal with that stored number |
| Scrape.ResolvedProposalChecked | collect.py:85-94 | the lookup with the missing check: a detail page whose number differs from the row's is a mismatch fault |
| Scrape.ResolvedProposalCheckedKeepsNumbersUnique | collect.py:85-94 | the checked lookup returns a proposal with the row's number and never stores a file number twice, whatever the pages say |
| Scrape.ResolvedProposalCheckedAgrees | collect.py:85-94 | where the file cell agrees with its detail page, the checked lookup is the lookup as written |
| Crawl.ScrapeProposalPage | collect.py:21-56 | the method adds the proposal built from the detail page and returns it, or fails with that fault and leaves the session as it was |
| Crawl.CastRowVotes | collect.py:100-107 | the supervisor loop leaves the session as the row-vote specification says, or stops with its fault |
| Crawl.ScrapeRow | collect.py:84-107 | one row pass ends in the tables the row specification gives, or with its fault |
| Crawl.ScrapeVotePage | collect.py:58-107 | the page method checks the headers and scrapes every row, as the page specification says |
| Crawl.ScrapeVoteListing | collect.py:111-120 | the page loop selects pages 1, 2, ... and ends as the listing specification says; the pager data is unchanged; the pager ends where the failing search for the page after the last one scraped ended, showing the last page scraped |
| Crawl.ScrapeYearRange | collect.py:137-145 | the year loop ends as the crawl specification says, with nothing committed |
| Crawl.ScrapeVoteYears | collect.py:122-152 | on success the crawl's tables are committed; on any fault the session returns to the committed state held before the crawl; a successful crawl only appends to the committed tables; well-formedness is preserved, and so are unique file numbers when every listing agrees with its detail pages |

## Left out

- Browser I/O is not modelled: starting Firefox, `browser.get`, `find_element*`, CSS selectors, clicks and `get_attribute`. Pages and elements are given data. The browser's address book of proposal pages is a map from URL to `Scrape.DetailPage`.
- `extract_href` is not modelled: a file-number cell carries its link as an optional string.
- The second browser opened for each vote page, and its closing, are not modelled.
- The `time.sleep` waits carry no logic and are not modelled.
- The `'Input'` to `'DropDown'` id rewrite in `select_dropdown_option` is DOM plumbing and is not modelled.
- The command-line parsing is not modelled: `ScrapeVoteYears` takes the first and last year as parameters.
- SQLAlchemy is not modelled. The engine, the sessionmaker and flush timing become a store that assigns ids 1, 2, … in insertion order. Nothing is ever deleted, so those ids match SQLite's.
- Rows are not mutable ORM objects; they are modelled as values. Every field is set before the row is added and never changed afterwards, so nothing observable is lost.
- Store.WithVote: a vote with an empty key column or a duplicate key is refused when it is added, not at the next autoflush. When the source's autoflush comes later, another fault can be raised first: a missing later supervisor column (`KeyError`), or the next row's file number, action date or missing column. The model reports NullKey or DuplicateVote there instead. Whether the crawl fails, and the rollback, are the same.
- Scrape.CastVotesAsWritten: stops at the first ballot, because the vote it adds can never be stored. It therefore reports that vote's fault even where the source would first raise a `KeyError` for a later column (see Store.WithVote).
- Crawl.ScrapeProposalPage: models the corrected program; the type is read from `DetailPage.typeText`, a label the source never reads. The source's record is `Scrape.ProposalFromPageAsWritten`.
- Scrape.ProposalFromPageExactly: states the corrected record, with the type from `DetailPage.typeText`. `Scrape.AsWrittenTypeIsTheDate` and `Scrape.ProposalFromPageFixesType` relate it to the record as written.
- Scrape.ScrapedProposal: builds the corrected record (type from `DetailPage.typeText`). A detail page that lacks one of its labels is modelled as a URL absent from the map of pages, and fails with `MissingDetail`.
- Crawl.CastRowVotes: models the corrected program; each vote names its row's vote event (`Store.NewVote`). As written, the first ballot aborts the crawl (`Scrape.AsWrittenFirstBallotAborts`).
- Scrape.CastVotesRecordsBallots: holds for the corrected votes, which name their row's event. The votes as written are never stored (`Scrape.AsWrittenFirstBallotAborts`).
- Scrape.CastVotes: casts the corrected votes (`Store.NewVote`); the as-written loop is `Scrape.CastVotesAsWritten`.
- Scrape.ResolvedProposal: like the source, it never compares the detail page's file number with the row's. Unique file numbers are proved only when every row's link agrees with its page (`Scrape.CrawledYearsKeepNumbersUnique`). The checked lookup is `Scrape.ResolvedProposalChecked`, and the crawl keeps the unchecked one.
- Text.IsSpace: the white space table is Python 3's. Under Python 2.7 `unicode.isspace` also counts U+180E, so a text ending in U+180E would be stripped differently there.
- Text.ParseInt: accepts only ASCII digit strings. Python's `int()` also takes a sign, underscores, surrounding whitespace and non-ASCII digits; those inputs count as not-a-number here.
- The dictionary `legislator_objects` in `scrape_vote_page` is never used and is not modelled.
- Schema types such as `String(255)` are not modelled: no length limit is checked.

## Findings

| source | as written | input that shows it | evidently intended | confidence | as-written member | corrected member |
|---|---|---|---|---|---|---|
| db.py:76-79, collect.py:103-107 | `Vote(legislator, proposal, aye)` stores the proposal on an attribute the votes table lacks, so `vote_event_id` stays empty; both key columns are `primary_key=True`, which SQLAlchemy's generated DDL makes NOT NULL (db.py itself never creates the tables) | an empty store and one grid row in which a supervisor votes "Aye": the vote has no vote event id, and the flush that inserts it breaks the primary key's NOT NULL | each vote belongs to the vote event of its row | not executed | Scrape.AsWrittenFirstBallotAborts | Scrape.ScrapedRowVotesNeverCollide |
| collect.py:35-37 | `proposal_type` is read from the introduction-date label | any detail page: the stored type is the date text, e.g. "01/05/2010" | the type is read from the page's type label | not executed | Scrape.AsWrittenTypeIsTheDate | Scrape.ProposalFromPageFixesType |
| collect.py:29, 85, 91-94 | the file number read from the detail page is never compared with the row's | a store holding proposal 7, and a row listed as 8 whose link leads to the page of 7: a second proposal numbered 7 is stored | one proposal per file number | not executed | Scrape.MislinkedPageDuplicatesNumber | Scrape.ResolvedProposalCheckedKeepsNumbersUnique |
