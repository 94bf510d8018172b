/**
 * The exceptions that end a crawl, one constructor per way the scraper or the
 * database can raise. Any of them rolls the session back.
 */
module Faults {
  import opened Wrappers
  import Dates

  datatype Fault =
    /** The `assert` on the first six column headers of a vote grid. */
    | HeaderMismatch(headers: seq<string>)
    /** KeyError: a row has no cell under this column name. */
    | MissingColumn(name: string)
    /** ValueError from int() on a file number. */
    | NotANumber(text: string)
    /** ValueError from parse_date. */
    | BadDate(text: string, reason: Dates.DateError)
    /** The file-number cell holds no link to the proposal page. */
    | NoLink
    /** The proposal page at this address lacks one of its labels. */
    | MissingDetail(url: string)
    /** "Year not found in options." */
    | YearNotFound(year: int)
    /** Two votes with the same (legislator id, vote event id) primary key. */
    | DuplicateVote(legislatorId: Option<nat>, voteEventId: Option<nat>)
    /** A vote whose primary key has an empty part: the key columns are NOT NULL. */
    | NullKey(legislatorId: Option<nat>, voteEventId: Option<nat>)
    /** A detail page whose file number is not the number of the row that links to it. */
    | NumberMismatch(listed: int, onPage: int)
}
