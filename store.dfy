/**
 * The records of db.py and the database session that collect.py fills: four
 * tables whose ids the store hands out in insertion order, the find-or-create
 * lookups of record_supervisor and find_proposal, and a session holding the
 * committed tables beside the pending ones that flushes have written.
 */
module Store {
  import opened Wrappers
  import opened Faults
  import Search
  import Dates

  /** A supervisor; `id` stays None until the store assigns it. */
  datatype Legislator = Legislator(id: Option<nat>, name: string)

  /** A piece of legislation and what its detail page says about it. */
  datatype Proposal = Proposal(
    id: Option<nat>,
    fileNumber: int,
    title: string,
    status: Option<string>,
    proposalType: Option<string>,
    introductionDate: Option<Dates.Date>)

  /** A time a proposal was voted on. */
  datatype VoteEvent = VoteEvent(id: Option<nat>, proposalId: Option<nat>, voteDate: Dates.Date)

  /** One legislator's vote; its primary key is (legislatorId, voteEventId). */
  datatype Vote = Vote(legislatorId: Option<nat>, voteEventId: Option<nat>, ayeVote: bool)

  /** Legislator(name): only the name is set, the id is left to the store. */
  function NewLegislator(name: string): Legislator {
    Legislator(None, name)
  }

  /** Proposal(file_number, title): the other columns stay empty until the caller sets them. */
  function NewProposal(fileNumber: int, title: string): Proposal {
    Proposal(None, fileNumber, title, None, None, None)
  }

  /** VoteEvent(proposal, vote_date): the event points at the proposal's row. */
  function NewVoteEvent(proposal: Proposal, voteDate: Dates.Date): VoteEvent {
    VoteEvent(None, proposal.id, voteDate)
  }

  /**
   * Vote(legislator, proposal, aye) as db.py writes it: the proposal lands on an
   * attribute the votes table does not have, so the vote event column stays empty.
   */
  function NewVoteAsWritten(legislator: Legislator, proposal: Proposal, aye: bool): Vote {
    Vote(legislator.id, None, aye)
  }

  /** The constructor as evidently intended: the vote belongs to the event of its row. */
  function NewVote(legislator: Legislator, event: VoteEvent, aye: bool): Vote {
    Vote(legislator.id, event.id, aye)
  }

  /** The composite primary key of the votes table. */
  function VoteKey(v: Vote): (Option<nat>, Option<nat>) {
    (v.legislatorId, v.voteEventId)
  }

  /** The four tables, each in insertion order. */
  datatype Tables = Tables(
    legislators: seq<Legislator>,
    proposals: seq<Proposal>,
    events: seq<VoteEvent>,
    votes: seq<Vote>)

  /** `id` names one of the first `count` rows of a table whose ids start at 1. */
  predicate RefersTo(id: Option<nat>, count: nat) {
    id.Some? && 1 <= id.value <= count
  }

  /**
   * The store as the scraper keeps it: ids 1, 2, ... in insertion order, one
   * legislator per name, every foreign key pointing at an existing row and no
   * two votes sharing a primary key.
   */
  ghost predicate WellFormed(t: Tables) {
    && (forall i :: 0 <= i < |t.legislators| ==> t.legislators[i].id == Some(i + 1))
    && (forall i, j :: 0 <= i < j < |t.legislators| ==> t.legislators[i].name != t.legislators[j].name)
    && (forall i :: 0 <= i < |t.proposals| ==> t.proposals[i].id == Some(i + 1))
    && (forall i :: 0 <= i < |t.events| ==> t.events[i].id == Some(i + 1))
    && (forall i :: 0 <= i < |t.events| ==> RefersTo(t.events[i].proposalId, |t.proposals|))
    && (forall i :: 0 <= i < |t.votes| ==> RefersTo(t.votes[i].legislatorId, |t.legislators|))
    && (forall i :: 0 <= i < |t.votes| ==> RefersTo(t.votes[i].voteEventId, |t.events|))
    && (forall i, j :: 0 <= i < j < |t.votes| ==> VoteKey(t.votes[i]) != VoteKey(t.votes[j]))
  }

  /**
   * No two proposals share a file number. The schema does not enforce it; only
   * the find-or-create lookup of the scraper can keep it.
   */
  predicate UniqueNumbers(t: Tables) {
    forall i, j :: 0 <= i < j < |t.proposals| ==> t.proposals[i].fileNumber != t.proposals[j].fileNumber
  }

  /** `later` only appended rows to `earlier`. */
  predicate Extends(later: Tables, earlier: Tables) {
    && earlier.legislators <= later.legislators
    && earlier.proposals <= later.proposals
    && earlier.events <= later.events
    && earlier.votes <= later.votes
  }

  function Names(ls: seq<Legislator>): (r: seq<string>)
    ensures |r| == |ls| && forall i :: 0 <= i < |ls| ==> r[i] == ls[i].name
  {
    seq(|ls|, i requires 0 <= i < |ls| => ls[i].name)
  }

  function FileNumbers(ps: seq<Proposal>): (r: seq<int>)
    ensures |r| == |ps| && forall i :: 0 <= i < |ps| ==> r[i] == ps[i].fileNumber
  {
    seq(|ps|, i requires 0 <= i < |ps| => ps[i].fileNumber)
  }

  function Keys(vs: seq<Vote>): (r: seq<(Option<nat>, Option<nat>)>)
    ensures |r| == |vs| && forall i :: 0 <= i < |vs| ==> r[i] == VoteKey(vs[i])
  {
    seq(|vs|, i requires 0 <= i < |vs| => VoteKey(vs[i]))
  }

  /** query(Legislator).filter_by(name=name).first(): the earliest legislator with that name, if any. */
  function LegislatorNamed(t: Tables, name: string): (r: Option<Legislator>)
    ensures r.Some? <==> name in Names(t.legislators)
    ensures r.Some? ==> r.value in t.legislators && r.value.name == name
  {
    match Search.FirstIndexOf(Names(t.legislators), name)
    case None => None
    case Some(i) => Some(t.legislators[i])
  }

  /** query(Proposal).filter_by(file_number=n).first(): the earliest proposal with that file number, if any. */
  function ProposalNumbered(t: Tables, fileNumber: int): (r: Option<Proposal>)
    ensures r.Some? <==> fileNumber in FileNumbers(t.proposals)
    ensures r.Some? ==> r.value in t.proposals && r.value.fileNumber == fileNumber
  {
    match Search.FirstIndexOf(FileNumbers(t.proposals), fileNumber)
    case None => None
    case Some(i) => Some(t.proposals[i])
  }

  /**
   * record_supervisor on the tables: the stored legislator of that name, or else
   * a new one, added with the next id.
   */
  function WithSupervisor(t: Tables, name: string): (r: (Tables, Legislator))
    ensures Extends(r.0, t) && r.1 in r.0.legislators && r.1.name == name
    ensures r.0 == t <==> name in Names(t.legislators)
    ensures r.0 != t ==> r.0 == t.(legislators := t.legislators + [r.1]) && r.1.id == Some(|r.0.legislators|)
  {
    match LegislatorNamed(t, name)
    case Some(l) => (t, l)
    case None =>
      var l := NewLegislator(name).(id := Some(|t.legislators| + 1));
      (t.(legislators := t.legislators + [l]), l)
  }

  /** session.add and flush of a proposal: it is appended and receives the next id. */
  function WithProposal(t: Tables, p: Proposal): (r: (Tables, Proposal))
    ensures Extends(r.0, t) && r.0 == t.(proposals := t.proposals + [r.1])
    ensures r.1 == p.(id := Some(|r.0.proposals|))
  {
    var stored := p.(id := Some(|t.proposals| + 1));
    (t.(proposals := t.proposals + [stored]), stored)
  }

  /** session.add and flush of a vote event: it is appended and receives the next id. */
  function WithVoteEvent(t: Tables, e: VoteEvent): (r: (Tables, VoteEvent))
    ensures Extends(r.0, t) && r.0 == t.(events := t.events + [r.1])
    ensures r.1 == e.(id := Some(|r.0.events|))
  {
    var stored := e.(id := Some(|t.events| + 1));
    (t.(events := t.events + [stored]), stored)
  }

  /**
   * Both parts of the vote's primary key are set. The key columns are declared
   * primary_key=True, and the DDL SQLAlchemy generates for such a column makes it
   * NOT NULL (db.py itself never creates the tables).
   */
  predicate HasKey(v: Vote) {
    v.legislatorId.Some? && v.voteEventId.Some?
  }

  /**
   * session.add of a vote and the flush that inserts it: refused when a part of
   * its primary key is empty, or when a stored vote already has that key.
   */
  function WithVote(t: Tables, v: Vote): (r: Result<Tables, Fault>)
    ensures r.Failure? <==> !HasKey(v) || VoteKey(v) in Keys(t.votes)
    ensures r.Failure? && !HasKey(v) ==> r.error == NullKey(v.legislatorId, v.voteEventId)
    ensures r.Failure? && HasKey(v) ==> r.error == DuplicateVote(v.legislatorId, v.voteEventId)
    ensures r.Success? ==> Extends(r.value, t) && r.value == t.(votes := t.votes + [v])
  {
    if !HasKey(v) then Failure(NullKey(v.legislatorId, v.voteEventId))
    else if VoteKey(v) in Keys(t.votes) then Failure(DuplicateVote(v.legislatorId, v.voteEventId))
    else Success(t.(votes := t.votes + [v]))
  }

  /** record_supervisor keeps the store well formed and returns the row that holds the name. */
  lemma WithSupervisorKeepsWellFormed(t: Tables, name: string)
    requires WellFormed(t)
    ensures var (t', l) := WithSupervisor(t, name);
      && WellFormed(t')
      && RefersTo(l.id, |t'.legislators|)
      && t'.legislators[l.id.value - 1] == l
  {
    var names := Names(t.legislators);
    match Search.FirstIndexOf(names, name)
    case Some(i) =>
      assert WithSupervisor(t, name) == (t, t.legislators[i]);
    case None =>
      var (t', l) := WithSupervisor(t, name);
      forall i | 0 <= i < |t.legislators| ensures t.legislators[i].name != name {
        assert names[i] == t.legislators[i].name;
      }
      assert t'.legislators == t.legislators + [l];
  }

  /** A second record_supervisor for the same name adds nothing and returns the same legislator. */
  lemma WithSupervisorIdempotent(t: Tables, name: string)
    ensures var (t', l) := WithSupervisor(t, name);
      WithSupervisor(t', name) == (t', l)
  {
    var (t', l) := WithSupervisor(t, name);
    if t' != t {
      var names := Names(t.legislators);
      var names' := Names(t'.legislators);
      assert names' == names + [name];
      assert name !in names;
      assert Search.FirstIndexOf(names', name) == Some(|names|);
    }
  }

  /** Adding a proposal keeps the store well formed. */
  lemma WithProposalKeepsWellFormed(t: Tables, p: Proposal)
    requires WellFormed(t)
    ensures WellFormed(WithProposal(t, p).0)
  {
  }

  /** Adding a vote event for a stored proposal keeps the store well formed. */
  lemma WithVoteEventKeepsWellFormed(t: Tables, e: VoteEvent)
    requires WellFormed(t) && RefersTo(e.proposalId, |t.proposals|)
    ensures WellFormed(WithVoteEvent(t, e).0)
    ensures forall i :: 0 <= i < |t.votes| ==> t.votes[i].voteEventId != WithVoteEvent(t, e).1.id
  {
  }

  /** A vote for stored rows that is not refused keeps the store well formed. */
  lemma WithVoteKeepsWellFormed(t: Tables, v: Vote)
    requires WellFormed(t)
    requires RefersTo(v.legislatorId, |t.legislators|) && RefersTo(v.voteEventId, |t.events|)
    ensures WithVote(t, v).Success? ==> WellFormed(WithVote(t, v).value)
  {
    if WithVote(t, v).Success? {
      var keys := Keys(t.votes);
      forall i | 0 <= i < |t.votes| ensures VoteKey(t.votes[i]) != VoteKey(v) {
        assert keys[i] == VoteKey(t.votes[i]);
      }
    }
  }

  /**
   * With the constructor as written, every vote is refused, whatever the store
   * holds: its vote event column stays empty, and that column is part of the
   * NOT NULL primary key.
   */
  lemma AsWrittenVoteRefused(t: Tables, l: Legislator, p: Proposal, aye: bool)
    ensures WithVote(t, NewVoteAsWritten(l, p, aye)) == Failure(NullKey(l.id, None))
  {
  }

  /** An as-written vote refers to no vote event, so no well-formed store could hold it. */
  lemma AsWrittenVoteUnlinked(t: Tables, l: Legislator, p: Proposal, aye: bool)
    ensures NewVoteAsWritten(l, p, aye).voteEventId == None
    ensures !WellFormed(t.(votes := t.votes + [NewVoteAsWritten(l, p, aye)]))
  {
    var t' := t.(votes := t.votes + [NewVoteAsWritten(l, p, aye)]);
    assert t'.votes[|t.votes|].voteEventId == None;
  }

  /**
   * The database session: the tables as last committed, and the pending tables
   * that flushes have written since. Queries read the pending tables.
   */
  class Session {
    var committed: Tables
    var pending: Tables

    /** Pending work only ever appends to what was committed. */
    ghost predicate Valid()
      reads this
    {
      Extends(pending, committed)
    }

    constructor (saved: Tables)
      ensures Valid() && committed == saved && pending == saved
    {
      committed, pending := saved, saved;
    }

    /** The query of record_supervisor: scan the legislators for the first with that name. */
    method QueryLegislator(name: string) returns (r: Option<Legislator>)
      ensures r == LegislatorNamed(pending, name)
    {
      var rows := pending.legislators;
      ghost var names := Names(rows);
      for i := 0 to |rows|
        invariant forall j :: 0 <= j < i ==> names[j] != name
      {
        if rows[i].name == name {
          assert Search.FirstIndexOf(names, name) == Some(i);
          return Some(rows[i]);
        }
      }
      return None;
    }

    /** record_supervisor: the legislator with that name, created and flushed when missing. */
    method RecordSupervisor(name: string) returns (l: Legislator)
      requires Valid()
      modifies this
      ensures Valid() && committed == old(committed)
      ensures (pending, l) == WithSupervisor(old(pending), name)
    {
      var found := QueryLegislator(name);
      if found.Some? {
        return found.value;
      }
      l := NewLegislator(name).(id := Some(|pending.legislators| + 1));
      pending := pending.(legislators := pending.legislators + [l]);
    }

    /** find_proposal: scan the proposals for the first with that file number. */
    method FindProposal(fileNumber: int) returns (r: Option<Proposal>)
      ensures r == ProposalNumbered(pending, fileNumber)
    {
      var rows := pending.proposals;
      ghost var numbers := FileNumbers(rows);
      for i := 0 to |rows|
        invariant forall j :: 0 <= j < i ==> numbers[j] != fileNumber
      {
        if rows[i].fileNumber == fileNumber {
          assert Search.FirstIndexOf(numbers, fileNumber) == Some(i);
          return Some(rows[i]);
        }
      }
      return None;
    }

    /** session.add(proposal) and flush. */
    method AddProposal(p: Proposal) returns (stored: Proposal)
      requires Valid()
      modifies this
      ensures Valid() && committed == old(committed)
      ensures (pending, stored) == WithProposal(old(pending), p)
    {
      stored := p.(id := Some(|pending.proposals| + 1));
      pending := pending.(proposals := pending.proposals + [stored]);
    }

    /** session.add(vote_event) and flush. */
    method AddVoteEvent(e: VoteEvent) returns (stored: VoteEvent)
      requires Valid()
      modifies this
      ensures Valid() && committed == old(committed)
      ensures (pending, stored) == WithVoteEvent(old(pending), e)
    {
      stored := e.(id := Some(|pending.events| + 1));
      pending := pending.(events := pending.events + [stored]);
    }

    /** session.add(vote): refused, leaving the tables as they were, when its key is empty in part or taken. */
    method AddVote(v: Vote) returns (r: Outcome<Fault>)
      requires Valid()
      modifies this
      ensures Valid() && committed == old(committed)
      ensures r.Pass? ==> WithVote(old(pending), v) == Success(pending)
      ensures r.Fail? ==> WithVote(old(pending), v) == Failure(r.error) && pending == old(pending)
    {
      if v.legislatorId.None? || v.voteEventId.None? {
        return Fail(NullKey(v.legislatorId, v.voteEventId));
      }
      if VoteKey(v) in Keys(pending.votes) {
        return Fail(DuplicateVote(v.legislatorId, v.voteEventId));
      }
      pending := pending.(votes := pending.votes + [v]);
      return Pass;
    }

    /** session.commit(): the pending tables become the committed ones. */
    method Commit()
      requires Valid()
      modifies this
      ensures Valid() && committed == old(pending) && pending == old(pending)
    {
      committed := pending;
    }

    /** session.rollback(): everything since the last commit is discarded. */
    method Rollback()
      requires Valid()
      modifies this
      ensures Valid() && committed == old(committed) && pending == old(committed)
    {
      pending := committed;
    }
  }
}
