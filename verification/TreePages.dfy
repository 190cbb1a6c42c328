/** What a b-tree page points to: its cells' overflow chains and, on interior pages, its
    children. */
module TreePages {
  import opened Bytes
  import opened Cells

  datatype TreeError = TraversalTooLong | OverflowChainCycle(page: u32) | OverflowChainTruncated | OverflowChainTooLong
                     | PayloadTooLarge | Unreadable(page: u32) | PageTooShort | BadCell(cell: CellError) | UnexpectedPageType
                     | FreelistFailure | BadRecord

  const MAX_PAGES_VISITED: nat := 1_000_000
  const MAX_PAYLOAD_LEN: nat := 2_147_483_647

  datatype PageKind = TableLeaf | TableInterior | IndexLeaf | IndexInterior

  /** The b-tree header follows the 100-byte file header on page 1. */
  function HeaderStart(page: u32): nat { if page == 1 then 100 else 0 }

  function KindOf(buf: Page, hs: nat): Result<PageKind, TreeError>
  {
    if hs >= |buf| then Err(PageTooShort)
    else if buf[hs] == 13 then Ok(TableLeaf)
    else if buf[hs] == 5 then Ok(TableInterior)
    else if buf[hs] == 10 then Ok(IndexLeaf)
    else if buf[hs] == 2 then Ok(IndexInterior)
    else Err(UnexpectedPageType)
  }

  predicate Interior(k: PageKind) { k == TableInterior || k == IndexInterior }

  function CellCount(buf: Page, hs: nat): Result<nat, TreeError>
  {
    if hs + 5 > |buf| then Err(PageTooShort) else Ok(U16At(buf, hs + 3))
  }

  function CellStart(buf: Page, hs: nat, k: PageKind, i: nat): Result<nat, TreeError>
  {
    var at := hs + (if Interior(k) then 12 else 8) + 2 * i;
    if at + 2 > |buf| then Err(BadCell(InvalidCellPointer)) else Ok(U16At(buf, at))
  }

  function Field(buf: Page, at: nat): Result<u32, TreeError>
  {
    if at + 4 > |buf| then Err(PageTooShort) else Ok(U32At(buf, at))
  }

  /** The overflow chain a cell starts: its first page and how many pages it takes. */
  datatype Overflow = Overflow(first: u32, hops: nat, payload: nat)

  /** How many overflow pages of `available` bytes it takes. */
  function Pieces(remaining: nat, available: nat): nat
    requires available > 0
  {
    if remaining == 0 then 0 else 1 + Pieces(remaining - Min(remaining, available), available)
  }

  /** The pages are enough, and with one fewer they would not be. */
  lemma {:induction false} PiecesIs(remaining: nat, available: nat)
    requires available > 0
    ensures var n := Pieces(remaining, available);
            remaining <= Span(n, available) && (n > 0 ==> Span(n - 1, available) < remaining)
    decreases remaining
  {
    if remaining > available {
      PiecesIs(remaining - available, available);
    }
  }

  /** Cell `i`'s overflow chain, if its payload does not fit on the page. */
  function OverflowOf(buf: Page, hs: nat, k: PageKind, i: nat, usable: nat): Result<Option<Overflow>, TreeError>
  {
    var start :- CellStart(buf, hs, k, i);
    var at := if k == IndexInterior then start + 4 else start;
    if at > |buf| then Err(BadCell(InvalidCellPointer))
    else match CellHead(buf[at..], k == TableLeaf)
      case Err(e) => Err(BadCell(e))
      case Ok(head) =>
        var local := LocalPayloadSize(usable, head.0, k != TableLeaf);
        if local < head.0 then
          var first :- Field(buf, at + head.2 + local);
          Ok(Some(Overflow(first, Pieces(head.0 - local, PerOverflowPage(usable)), head.0)))
        else Ok(None)
  }

  /** The left child of cell `i` of an interior page. */
  function ChildOf(buf: Page, hs: nat, k: PageKind, i: nat): Result<u32, TreeError>
  {
    var start :- CellStart(buf, hs, k, i);
    var child :- Field(buf, start);
    if k == TableInterior && start + 4 <= |buf| && DecodeVarint(buf[start + 4..]).Err? then Err(BadCell(PayloadTooShort))
    else Ok(child)
  }

  function RightmostOf(buf: Page, hs: nat): Result<u32, TreeError> { Field(buf, hs + 8) }

  /** The overflow pointer of a cell whose pointer leads to `at`: behind the head, whose two
      varints take `n` and `m` bytes, and the part of the payload that stays. */
  lemma OverflowIs(buf: Page, hs: nat, k: PageKind, i: nat, usable: nat, at: nat, n: nat, m: nat)
    requires k != TableInterior && hs + (if k == IndexInterior then 12 else 8) + 2 * i + 2 <= |buf|
    requires at == U16At(buf, hs + (if k == IndexInterior then 12 else 8) + 2 * i) + (if k == IndexInterior then 4 else 0)
    requires at <= |buf| && VarintEnds(buf[at..], n) && if k == TableLeaf then VarintEnds(buf[at + n..], m) else m == 0
    ensures var payload := VarintValue(buf[at..], n);
            var local := LocalPayloadSize(usable, payload, k != TableLeaf);
            && (local == payload ==> OverflowOf(buf, hs, k, i, usable) == Ok(None))
            && (local < payload && at + n + m + local + 4 <= |buf| ==>
                  OverflowOf(buf, hs, k, i, usable) ==
                    Ok(Some(Overflow(U32At(buf, at + n + m + local), Pieces(payload - local, PerOverflowPage(usable)), payload))))
  {
    hide U16At, U32At, LocalPayloadSize, Pieces, CellHead, VarintValue, PerOverflowPage;
    PerPositive(usable);
    assert buf[at..][n..] == buf[at + n..];
    HeadIs(buf[at..], k == TableLeaf, n, m);
  }
}
