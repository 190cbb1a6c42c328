/** A well-formed 65536-byte leaf can carry more freeblocks than the chain walk allows. */
module FreeblockLimit {
  import opened Bytes
  import opened Cells
  import opened PageLayout
  import opened SpliceInsert
  import opened Freeblocks
  import opened SpliceDelete
  import opened PageRebuild

  const CELL: seq<byte> := [2, 1, 0, 0]
  const TABLE := Kind(65536, true)

  function Many(n: nat): (bs: seq<Extent>)
    ensures |bs| == n && forall i :: 0 <= i < n ==> bs[i] == Extent(100 + 6 * i, 4)
  {
    seq(n, (i: nat) => Extent(100 + 6 * i, 4))
  }

  lemma {:induction false} ManyTotal(n: nat)
    ensures Total(Many(n)) == 4 * n
  {
    if n > 0 {
      ManyTotal(n - 1);
      assert Many(n) == Many(n - 1) + [Many(n)[n - 1]];
      TotalAppend(Many(n - 1), [Many(n)[n - 1]]);
    }
  }

  const CROWDED := Layout([Extent(65532, 4)], Many(MAX_FREEBLOCKS + 1), 100)

  lemma CellIsOne()
    ensures CellLen(CELL, TABLE) == Ok(4)
  {
    assert DecodeVarint(CELL) == Ok((2, 1));
    assert CELL[1..] == [1, 0, 0];
    assert VarintFrom(CELL[1..], 0, 0) == Ok((1, 1));
  }

  lemma CrowdedTiled()
    ensures Tiled(CROWDED, 0, 65536) && Slack(CROWDED, 65536) > 255
  {
    hide Many;
    ManyTotal(MAX_FREEBLOCKS + 1);
    assert Total(CROWDED.cells) == 4;
    assert Spaced(CROWDED.blocks, 100, 65536);
    assert Clear(CROWDED.cells, CROWDED.blocks);
  }

  /** One cell at the end, everything else freeblocks and fragments. */
  ghost function CrowdedPage(): (r: seq<byte>)
    ensures |r| == 65536
  {
    CrowdedTiled();
    CrowdedFits();
    var p := Put(Put(Rebuilt([], 65536, LEAF_TABLE, [CELL]), 5, BE16(100)), 7, [255]);
    Linked(p, 0, CROWDED.blocks)
  }

  lemma CrowdedFits()
    ensures Fits(65536, 0, [CELL]) && RebuiltLayout(65536, 0, [CELL]).cells == CROWDED.cells
    ensures Spaced(CROWDED.blocks, 0, 65536)
  {
    assert Joined([CELL]) == CELL;
    CrowdedTiled();
    var l := RebuiltLayout(65536, 0, [CELL]);
    assert [CELL][0..] == [CELL];
    assert l.cells == [Extent(65532, 4)];
  }

  /** On this page the removal reports an error, and the cell is gone all the same. */
  lemma CrowdedIsWellFormed()
    ensures WellFormed(CrowdedPage(), 0, TABLE, CROWDED) && !Fragments(CROWDED, 0) && |CROWDED.blocks| > MAX_FREEBLOCKS
  {
    hide Linked, Put, Rebuilt, RebuiltLayout, Tiled, Slack, CellLen, U16At, Many, Chain, BE16;
    CellIsOne();
    CrowdedFits();
    CrowdedTiled();
    var a := Rebuilt([], 65536, LEAF_TABLE, [CELL]);
    RebuiltOk([], 65536, LEAF_TABLE, [CELL], TABLE);
    FieldWritten(a, 0, TABLE, CROWDED.cells, 5, BE16(100));
    var b := Put(a, 5, BE16(100));
    PutHere(a, 5, BE16(100));
    FieldWritten(b, 0, TABLE, CROWDED.cells, 7, [255]);
    var p := Put(b, 7, [255]);
    PutElsewhere(b, 7, [255], 5, 7);
    PutHere(b, 7, [255]);
    assert p[7] == p[7..8][0];
    ReadBack16(p, 5, 100);
    RelinkedReads(p, 0, TABLE, CROWDED);
  }
}
