/** The edits the program page applies to its program's list of blocks. */
module BlockEdits {
  import opened Workout
  import Seqs

  function BlockIds(blocks: seq<Block>): seq<Id> {
    seq(|blocks|, i requires 0 <= i < |blocks| => blocks[i].id)
  }

  /** `handleCreateBlock`: the server's block, with no weeks yet, goes at the end. */
  function AppendBlock(p: Program, block: Block): (r: Program)
    ensures r == p.(blocks := r.blocks)
    ensures |r.blocks| == |p.blocks| + 1 && r.blocks[..|p.blocks|] == p.blocks
    ensures r.blocks[|p.blocks|] == block.(weeks := [])
  {
    p.(blocks := p.blocks + [block.(weeks := [])])
  }

  /** `handleBlockUpdate`: the blocks with the same id become `block`. */
  function ReplaceBlock(p: Program, block: Block): (r: Program)
    ensures r == p.(blocks := r.blocks) && |r.blocks| == |p.blocks|
    ensures BlockIds(r.blocks) == BlockIds(p.blocks)
    ensures forall i :: 0 <= i < |p.blocks| ==>
      r.blocks[i] == if p.blocks[i].id == block.id then block else p.blocks[i]
  {
    p.(blocks := seq(|p.blocks|, i requires 0 <= i < |p.blocks| =>
      if p.blocks[i].id == block.id then block else p.blocks[i]))
  }

  /** `handleBlockRename`: the blocks with the id take the server's name; nothing else changes. */
  function RenameBlock(p: Program, blockId: Id, name: string): (r: Program)
    ensures r == p.(blocks := r.blocks) && |r.blocks| == |p.blocks|
    ensures BlockIds(r.blocks) == BlockIds(p.blocks)
    ensures forall i :: 0 <= i < |p.blocks| ==>
      r.blocks[i] == if p.blocks[i].id == blockId then p.blocks[i].(name := name) else p.blocks[i]
  {
    p.(blocks := seq(|p.blocks|, i requires 0 <= i < |p.blocks| =>
      if p.blocks[i].id == blockId then p.blocks[i].(name := name) else p.blocks[i]))
  }

  /**
   * `handleBlockDelete`: every block with the id goes, the others stay in their order and with
   * their multiplicity.
   */
  function DeleteBlock(p: Program, blockId: Id): (r: Program)
    ensures r == p.(blocks := r.blocks)
    ensures Seqs.Subsequence(r.blocks, p.blocks)
    ensures forall b :: multiset(r.blocks)[b] == if b.id != blockId then multiset(p.blocks)[b] else 0
    ensures forall b :: b in r.blocks <==> b in p.blocks && b.id != blockId
    ensures |r.blocks| <= |p.blocks|
  {
    Seqs.FilterCounts(p.blocks, (b: Block) => b.id != blockId);
    Seqs.FilterInOrder(p.blocks, (b: Block) => b.id != blockId);
    p.(blocks := Seqs.Filter(p.blocks, (b: Block) => b.id != blockId))
  }

  /** Appending a block with a new id keeps the ids distinct, and the block is then listed. */
  lemma AppendKeepsIdsDistinct(p: Program, block: Block)
    requires Seqs.Distinct(BlockIds(p.blocks))
    requires block.id !in BlockIds(p.blocks)
    ensures Seqs.Distinct(BlockIds(AppendBlock(p, block).blocks))
    ensures block.(weeks := []) in AppendBlock(p, block).blocks
  {
    assert BlockIds(AppendBlock(p, block).blocks) == BlockIds(p.blocks) + [block.id];
  }

  /** Renaming twice is renaming once with the second name. */
  lemma RenameTwice(p: Program, blockId: Id, first: string, second: string)
    ensures RenameBlock(RenameBlock(p, blockId, first), blockId, second) == RenameBlock(p, blockId, second)
  {
    var once := RenameBlock(p, blockId, first);
    assert RenameBlock(once, blockId, second).blocks == RenameBlock(p, blockId, second).blocks;
  }

  /** Deleting a block just created, when no other block has its id, gives back the program. */
  lemma AppendThenDeleteBlock(p: Program, block: Block)
    requires block.id !in BlockIds(p.blocks)
    ensures DeleteBlock(AppendBlock(p, block), block.id) == p
  {
    var keep := (b: Block) => b.id != block.id;
    Seqs.FilterAppend(p.blocks, [block.(weeks := [])], keep);
    forall i | 0 <= i < |p.blocks| ensures keep(p.blocks[i]) {
      assert BlockIds(p.blocks)[i] == p.blocks[i].id;
    }
    Seqs.FilterKeepsAll(p.blocks, keep);
    assert AppendBlock(p, block).blocks == p.blocks + [block.(weeks := [])];
  }

  /** Deleting keeps the block ids distinct. */
  lemma DeleteKeepsIdsDistinct(p: Program, blockId: Id)
    requires Seqs.Distinct(BlockIds(p.blocks))
    ensures Seqs.Distinct(BlockIds(DeleteBlock(p, blockId).blocks))
  {
    var ids := BlockIds(p.blocks);
    forall j, k | 0 <= j < k < |p.blocks| ensures BlockId(p.blocks[j]) != BlockId(p.blocks[k]) {
      assert ids[j] != ids[k];
    }
    var keep := (b: Block) => b.id != blockId;
    Seqs.FilterKeepsDistinctBy(p.blocks, keep, BlockId);
    var rest := DeleteBlock(p, blockId).blocks;
    assert rest == Seqs.Filter(p.blocks, keep);
    var ids' := BlockIds(rest);
    forall j, k | 0 <= j < k < |ids'| ensures ids'[j] != ids'[k] {
      assert BlockId(rest[j]) != BlockId(rest[k]);
    }
  }

  function BlockId(b: Block): Id {
    b.id
  }
}

/**
 * The program page (`ProgramDetail`): the program it edits, the block shown in the panel, and the
 * create-block form.
 */
module ProgramDetail {
  import opened Wrappers
  import opened Workout
  import opened Text
  import Seqs
  import BlockEdits

  class Detail {
    var program: Program
    var selectedBlock: Option<Block>
    var isModalOpen: bool
    var blockName: string

    /**
     * Block ids are distinct, and the block shown in the panel is one of the program's blocks,
     * so the list and the panel never disagree.
     */
    ghost predicate Valid()
      reads this
    {
      && Seqs.Distinct(BlockEdits.BlockIds(program.blocks))
      && (selectedBlock.Some? ==> selectedBlock.value in program.blocks)
    }

    constructor (program: Program)
      requires Seqs.Distinct(BlockEdits.BlockIds(program.blocks))
      ensures this.program == program && selectedBlock == None && !isModalOpen && blockName == ""
      ensures Valid()
    {
      this.program := program;
      selectedBlock := None;
      isModalOpen := false;
      blockName := "";
    }

    /** `onBlockSelect` from the block list. */
    method SelectBlock(block: Block)
      modifies this`selectedBlock
      ensures selectedBlock == Some(block)
      ensures old(Valid()) && block in program.blocks ==> Valid()
    {
      selectedBlock := Some(block);
    }

    method SetBlockName(text: string)
      modifies this`blockName
      ensures blockName == text
    {
      blockName := text;
    }

    method SetModalOpen(open: bool)
      modifies this`isModalOpen
      ensures isModalOpen == open
    {
      isModalOpen := open;
    }

    /**
     * `handleCreateBlock`: a blank name sends nothing. Otherwise the trimmed name is sent
     * (`request`); on success (`created`) the block, with no weeks, is appended and selected, the
     * form is emptied and closed. A failure is logged and changes nothing.
     */
    method CreateBlock(created: Option<Block>) returns (request: Option<string>)
      modifies this`program, this`selectedBlock, this`blockName, this`isModalOpen
      ensures request.None? <==> Trim(old(blockName)) == ""
      ensures request.Some? ==> request.value == Trim(old(blockName)) && request.value != ""
      ensures request.Some? && created.Some? ==>
        && program == BlockEdits.AppendBlock(old(program), created.value)
        && selectedBlock == Some(created.value.(weeks := []))
        && blockName == "" && !isModalOpen
      ensures request.None? || created.None? ==>
        && program == old(program) && selectedBlock == old(selectedBlock)
        && blockName == old(blockName) && isModalOpen == old(isModalOpen)
      ensures old(Valid()) && (created.Some? ==> created.value.id !in BlockEdits.BlockIds(old(program).blocks))
        ==> Valid()
    {
      var name := Trim(blockName);
      if name == "" {
        return None;
      }
      request := Some(name);
      if created.Some? {
        var newBlock := created.value.(weeks := []);
        program := BlockEdits.AppendBlock(program, created.value);
        selectedBlock := Some(newBlock);
        blockName := "";
        isModalOpen := false;
        if Seqs.Distinct(BlockEdits.BlockIds(old(program).blocks)) && created.value.id !in BlockEdits.BlockIds(old(program).blocks) {
          BlockEdits.AppendKeepsIdsDistinct(old(program), created.value);
        }
      }
    }

    /** `handleBlockUpdate`: the panel's edited block replaces its entry and stays selected. */
    method BlockUpdate(block: Block)
      modifies this`program, this`selectedBlock
      ensures program == BlockEdits.ReplaceBlock(old(program), block)
      ensures selectedBlock == Some(block)
      ensures old(Valid()) && block.id in BlockEdits.BlockIds(old(program).blocks) ==> Valid()
    {
      program := BlockEdits.ReplaceBlock(program, block);
      selectedBlock := Some(block);
      if block.id in BlockEdits.BlockIds(old(program).blocks) {
        var k :| 0 <= k < |old(program).blocks| && BlockEdits.BlockIds(old(program).blocks)[k] == block.id;
        assert program.blocks[k] == block;
      }
    }

    /**
     * `handleBlockRename`, given the server's block or None when `blocksApi.rename` threw
     * (logged): the list entry and, when it is the selected block, the panel take the server's name.
     */
    method RenameBlock(blockId: Id, reply: Option<Block>)
      modifies this`program, this`selectedBlock
      ensures reply.Some? ==> program == BlockEdits.RenameBlock(old(program), blockId, reply.value.name)
      ensures reply.Some? && old(selectedBlock).Some? && old(selectedBlock).value.id == blockId ==>
        selectedBlock == Some(old(selectedBlock).value.(name := reply.value.name))
      ensures reply.None? || old(selectedBlock).None? || old(selectedBlock).value.id != blockId ==>
        selectedBlock == old(selectedBlock)
      ensures reply.None? ==> program == old(program)
      ensures old(Valid()) ==> Valid()
    {
      if reply.None? {
        return;
      }
      var name := reply.value.name;
      program := BlockEdits.RenameBlock(program, blockId, name);
      if selectedBlock.Some? && selectedBlock.value.id == blockId {
        selectedBlock := Some(selectedBlock.value.(name := name));
      }
      if old(Valid()) && selectedBlock.Some? {
        var k :| 0 <= k < |old(program).blocks| && old(program).blocks[k] == old(selectedBlock).value;
        assert program.blocks[k] == selectedBlock.value;
      }
    }

    /**
     * `handleBlockDelete`; `ok` is false when `blocksApi.delete` threw (logged). The panel is
     * emptied when it showed the deleted block.
     */
    method DeleteBlock(blockId: Id, ok: bool)
      modifies this`program, this`selectedBlock
      ensures program == if ok then BlockEdits.DeleteBlock(old(program), blockId) else old(program)
      ensures selectedBlock ==
        if ok && old(selectedBlock).Some? && old(selectedBlock).value.id == blockId then None
        else old(selectedBlock)
      ensures old(Valid()) ==> Valid()
    {
      if !ok {
        return;
      }
      program := BlockEdits.DeleteBlock(program, blockId);
      if selectedBlock.Some? && selectedBlock.value.id == blockId {
        selectedBlock := None;
      }
      if old(Valid()) {
        BlockEdits.DeleteKeepsIdsDistinct(old(program), blockId);
      }
    }
  }
}
