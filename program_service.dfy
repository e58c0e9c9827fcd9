/**
 * The backend's program service: `new` inserts one program owned by its creator, `getAll` lists
 * the programs a user created. The `programs` table is a list of rows in insertion order; the
 * uuid the database draws for a new row is a parameter, and timestamps are not kept.
 */
module ProgramService {
  import Seqs

  type Id = string

  /** A row of `programs`: `createdBy` is the creating user's id. */
  datatype ProgramRow = ProgramRow(id: Id, name: string, createdBy: Id)

  /** `getAll`'s query: the rows whose `createdBy` is `userId`, in table order. */
  function OwnedBy(programs: seq<ProgramRow>, userId: Id): (r: seq<ProgramRow>)
    ensures forall p :: p in r <==> p in programs && p.createdBy == userId
    ensures |r| <= |programs|
  {
    Seqs.Filter(programs, (p: ProgramRow) => p.createdBy == userId)
  }

  /** A program is listed for its creator after everything the creator had before. */
  lemma NewListedForCreator(programs: seq<ProgramRow>, row: ProgramRow)
    ensures OwnedBy(programs + [row], row.createdBy) == OwnedBy(programs, row.createdBy) + [row]
  {
    var mine := (p: ProgramRow) => p.createdBy == row.createdBy;
    Seqs.FilterAppend(programs, [row], mine);
    assert Seqs.Filter([row], mine) == [row];
  }

  /** A program is never listed for anyone but its creator: their lists do not change. */
  lemma NewHiddenFromOthers(programs: seq<ProgramRow>, row: ProgramRow, userId: Id)
    requires userId != row.createdBy
    ensures OwnedBy(programs + [row], userId) == OwnedBy(programs, userId)
  {
    var theirs := (p: ProgramRow) => p.createdBy == userId;
    Seqs.FilterAppend(programs, [row], theirs);
    assert Seqs.Filter([row], theirs) == [];
  }

  class ProgramTable {
    var programs: seq<ProgramRow>

    constructor ()
      ensures programs == []
    {
      programs := [];
    }

    /** `programService.new`: one row with the name and the creator is inserted and returned. */
    method New(name: string, creator: Id, freshId: Id) returns (program: ProgramRow)
      modifies this
      ensures program == ProgramRow(freshId, name, creator)
      ensures programs == old(programs) + [program]
      ensures OwnedBy(programs, creator) == OwnedBy(old(programs), creator) + [program]
      ensures forall u :: u != creator ==> OwnedBy(programs, u) == OwnedBy(old(programs), u)
    {
      program := ProgramRow(freshId, name, creator);
      NewListedForCreator(programs, program);
      forall u | u != creator
        ensures OwnedBy(programs + [program], u) == OwnedBy(programs, u)
      {
        NewHiddenFromOthers(programs, program, u);
      }
      programs := programs + [program];
    }

    /** `programService.getAll`: exactly the user's programs; the table is only read. */
    method GetAll(userId: Id) returns (r: seq<ProgramRow>)
      ensures r == OwnedBy(programs, userId)
      ensures forall p :: p in r <==> p in programs && p.createdBy == userId
    {
      r := OwnedBy(programs, userId);
    }
  }
}
