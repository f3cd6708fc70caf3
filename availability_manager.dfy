/**
 * The employee's availability editor: a calendar of availability blocks
 * with four modes (view, add, edit, delete) and one draft per mode that
 * changes data. A proposed new range is clipped against the existing blocks
 * before it becomes a draft. The calendar shows the blocks with the drafts
 * overlaid as previews. Confirming a draft updates the local block list only
 * when the server accepts it.
 *
 * Times here are absolute instants, in minutes since the epoch; a block
 * stores a day number and two minutes of that day, as the stored
 * `date`/`start_time`/`end_time` fields do.
 */
module AvailabilityManager {

  import opened Options
  import opened Intervals
  import Calendar

  /** The four modes of the editor. */
  datatype Mode = View | Add | Edit | Delete

  /** A stored availability block. Blocks appended after a confirmed add
      have no id until the list is fetched again. */
  datatype Block = Block(id: Option<int>, date: int, startTime: int, endTime: int)

  /** A range between two instants. */
  datatype Range = Range(start: int, end: int)

  /** Event ids: a block's own id, or `new-<start>` for an add preview. */
  datatype EventId = BlockId(block: Option<int>) | NewId(at: int)

  /** A calendar event. */
  datatype Event = Event(id: EventId, title: string, start: int, end: int, isAvailability: bool, isPreview: bool)

  /** The add draft: one range, or the fragments of a range split by
      existing blocks. */
  datatype AddDraft = Single(range: Range) | Split(slots: seq<Range>)

  /** The edit draft: the event being resized and its new range. */
  datatype EditDraft = EditDraft(original: Event, modified: Range)

  /** The calendar day an instant falls on. */
  function DayOf(t: int): int
  {
    t / MinutesPerDay
  }

  /** The minute of its day at which an instant falls. */
  function TimeOfDay(t: int): (m: int)
    ensures 0 <= m < MinutesPerDay
  {
    t % MinutesPerDay
  }

  function BlockStart(b: Block): int
  {
    Instant(b.date, b.startTime)
  }

  function BlockEnd(b: Block): int
  {
    Instant(b.date, b.endTime)
  }

  /** The stored times are `HH:mm:ss` strings, so both lie within the day. */
  predicate WellTimed(b: Block)
  {
    0 <= b.startTime < MinutesPerDay && 0 <= b.endTime < MinutesPerDay
  }

  /** An instant is its day's start plus its minute of the day. */
  lemma DayAndTime(t: int)
    ensures t == Instant(DayOf(t), TimeOfDay(t))
    ensures DayOf(t) * MinutesPerDay <= t < (DayOf(t) + 1) * MinutesPerDay
  {
  }

  /** Minute `m` of day `date` falls on that day, at minute `m`. */
  lemma InstantParts(date: int, m: int)
    requires 0 <= m < MinutesPerDay
    ensures DayOf(Instant(date, m)) == date && TimeOfDay(Instant(date, m)) == m
  {
  }

  // ---------------------------------------------------------------------
  // Clipping a proposed range against the existing blocks
  // ---------------------------------------------------------------------

  /** The splice loop's test: the fragment starts on the block's day and the
      two overlap. Only the fragment's start is compared with the block's day. */
  predicate ClipOverlaps(f: Range, b: Block)
  {
    DayOf(f.start) == b.date && f.start < BlockEnd(b) && f.end > BlockStart(b)
  }

  /** What one fragment becomes against one block: itself when they do not
      overlap, else the parts of it left and right of the block. */
  function ClipOne(f: Range, b: Block): seq<Range>
  {
    if ClipOverlaps(f, b) then
      (if f.start < BlockStart(b) then [Range(f.start, BlockStart(b))] else [])
      + (if f.end > BlockEnd(b) then [Range(BlockEnd(b), f.end)] else [])
    else [f]
  }

  /** One block's pass over all fragments, in order. */
  function ClipAll(fs: seq<Range>, b: Block): seq<Range>
  {
    if fs == [] then [] else ClipAll(fs[..|fs| - 1], b) + ClipOne(fs[|fs| - 1], b)
  }

  /** The passes of all blocks, each on the previous pass's output. */
  function ClipBlocks(fs: seq<Range>, blocks: seq<Block>): seq<Range>
  {
    if blocks == [] then fs
    else ClipAll(ClipBlocks(fs, blocks[..|blocks| - 1]), blocks[|blocks| - 1])
  }

  /** The fragments of strictly positive length, in order. */
  function Positive(fs: seq<Range>): (r: seq<Range>)
    ensures |r| <= |fs|
  {
    if fs == [] then []
    else Positive(fs[..|fs| - 1]) + (if fs[|fs| - 1].start < fs[|fs| - 1].end then [fs[|fs| - 1]] else [])
  }

  /** The filter keeps exactly the fragments of positive length. */
  lemma {:induction false} PositiveMembers(fs: seq<Range>)
    ensures forall f :: f in Positive(fs) <==> f in fs && f.start < f.end
    decreases |fs|
  {
    if fs != [] {
      var n := |fs| - 1;
      PositiveMembers(fs[..n]);
      assert fs == fs[..n] + [fs[n]];
    }
  }

  /** What `createLimits` returns for a proposed range. */
  function Limits(r: Range, blocks: seq<Block>): seq<Range>
  {
    Positive(ClipBlocks([r], blocks))
  }

  /** The proposed range is inside some block that starts on the range's day. */
  predicate Inside(b: Block, start: int, end: int)
  {
    DayOf(start) == DayOf(BlockStart(b)) && BlockStart(b) <= start && end <= BlockEnd(b)
  }

  /** `isCompletlyWithinAvailability`: some block holds the whole range. */
  function IsCompletelyWithin(blocks: seq<Block>, start: int, end: int): (within: bool)
    ensures within <==> exists k :: 0 <= k < |blocks| && Inside(blocks[k], start, end)
  {
    if blocks == [] then false
    else IsCompletelyWithin(blocks[..|blocks| - 1], start, end) || Inside(blocks[|blocks| - 1], start, end)
  }

  /** Fragment `f` stays on day `d` and inside the proposed range `r`. */
  predicate Kept(f: Range, r: Range, d: int)
  {
    DayOf(f.start) == d && r.start <= f.start && f.end <= r.end
  }

  /** Fragment `f` does not overlap block `b`, or is empty. */
  predicate ApartOrEmpty(f: Range, b: Block)
  {
    f.end <= BlockStart(b) || BlockEnd(b) <= f.start || f.end <= f.start
  }

  /** Every fragment is kept, and is apart from (or empty against) every
      block of `done` dated `d`. */
  predicate Good(fs: seq<Range>, r: Range, d: int, done: seq<Block>)
  {
    forall f :: f in fs ==> Kept(f, r, d) && forall c :: c in done && c.date == d ==> ApartOrEmpty(f, c)
  }

  /** One clip only shrinks a fragment, keeps its start's day, and leaves
      it apart from the block when the block is on that day. */
  lemma ClipOneShape(f: Range, b: Block)
    requires WellTimed(b)
    ensures forall g :: g in ClipOne(f, b) ==>
              f.start <= g.start && g.end <= f.end && DayOf(g.start) == DayOf(f.start)
              && (DayOf(f.start) == b.date ==> ApartOrEmpty(g, b))
  {
    if ClipOverlaps(f, b) {
      InstantParts(b.date, b.endTime);
    }
  }

  lemma {:induction false} ClipAllGood(fs: seq<Range>, b: Block, r: Range, d: int, done: seq<Block>)
    requires WellTimed(b) && Good(fs, r, d, done)
    ensures Good(ClipAll(fs, b), r, d, done + [b])
    decreases |fs|
  {
    if fs != [] {
      var n := |fs| - 1;
      ClipAllGood(fs[..n], b, r, d, done);
      var f := fs[n];
      assert f in fs;
      ClipOneShape(f, b);
      forall g | g in ClipAll(fs, b)
        ensures Kept(g, r, d) && forall c :: c in done + [b] && c.date == d ==> ApartOrEmpty(g, c)
      {
        if g !in ClipAll(fs[..n], b) {
          assert g in ClipOne(f, b);
          forall c | c in done + [b] && c.date == d ensures ApartOrEmpty(g, c) {
            if c in done {
              assert ApartOrEmpty(f, c);
            }
          }
        }
      }
    }
  }

  lemma {:induction false} ClipBlocksGood(r: Range, blocks: seq<Block>)
    requires forall b :: b in blocks ==> WellTimed(b)
    ensures Good(ClipBlocks([r], blocks), r, DayOf(r.start), blocks)
    decreases |blocks|
  {
    if blocks != [] {
      var n := |blocks| - 1;
      ClipBlocksGood(r, blocks[..n]);
      assert blocks[n] in blocks;
      assert blocks[..n] + [blocks[n]] == blocks;
      ClipAllGood(ClipBlocks([r], blocks[..n]), blocks[n], r, DayOf(r.start), blocks[..n]);
    }
  }

  /** What `createLimits` promises, as written: every fragment has positive
      length, lies inside the proposed range, starts on the range's first
      day, and overlaps no block dated that day. */
  lemma LimitsSound(r: Range, blocks: seq<Block>)
    requires forall b :: b in blocks ==> WellTimed(b)
    ensures forall f :: f in Limits(r, blocks) ==>
              f.start < f.end && r.start <= f.start && f.end <= r.end && DayOf(f.start) == DayOf(r.start)
    ensures forall f, b :: f in Limits(r, blocks) && b in blocks && b.date == DayOf(r.start) ==>
              f.end <= BlockStart(b) || BlockEnd(b) <= f.start
  {
    ClipBlocksGood(r, blocks);
    PositiveMembers(ClipBlocks([r], blocks));
  }

  /** Instant `t` is inside a block dated `d`. */
  predicate BlockedOn(blocks: seq<Block>, d: int, t: int)
  {
    exists b :: b in blocks && b.date == d && BlockStart(b) <= t < BlockEnd(b)
  }

  /** Some fragment holds instant `t`. */
  predicate Holds(fs: seq<Range>, t: int)
  {
    exists f :: f in fs && f.start <= t < f.end
  }

  /** `createLimits` keeps exactly the free minutes, as written: an instant
      is in some fragment exactly when it is in the proposed range and in no
      block dated the range's first day. */
  lemma LimitsExact(r: Range, blocks: seq<Block>, t: int)
    requires forall b :: b in blocks ==> WellTimed(b)
    ensures Holds(Limits(r, blocks), t) <==> r.start <= t < r.end && !BlockedOn(blocks, DayOf(r.start), t)
  {
    LimitsSound(r, blocks);
    if r.start <= t < r.end && !BlockedOn(blocks, DayOf(r.start), t) {
      var f := ClipBlocksKeeps(r, blocks, t);
      PositiveMembers(ClipBlocks([r], blocks));
      assert f in Limits(r, blocks);
    }
  }

  /** A clip keeps every instant of the fragment that the block does not
      cover on the fragment's day. */
  lemma ClipOneKeeps(f: Range, b: Block, t: int) returns (g: Range)
    requires f.start <= t < f.end
    requires b.date == DayOf(f.start) ==> !(BlockStart(b) <= t < BlockEnd(b))
    ensures g in ClipOne(f, b) && g.start <= t < g.end
  {
    if !ClipOverlaps(f, b) {
      g := f;
    } else if t < BlockStart(b) {
      g := Range(f.start, BlockStart(b));
    } else {
      g := Range(BlockEnd(b), f.end);
    }
  }

  /** A pass keeps every instant of a fragment that the block does not cover
      on that fragment's day. */
  lemma {:induction false} ClipAllKeeps(fs: seq<Range>, b: Block, f: Range, t: int) returns (g: Range)
    requires f in fs && f.start <= t < f.end
    requires b.date == DayOf(f.start) ==> !(BlockStart(b) <= t < BlockEnd(b))
    ensures g in ClipAll(fs, b) && g.start <= t < g.end
    decreases |fs|
  {
    var n := |fs| - 1;
    assert fs == fs[..n] + [fs[n]];
    if f == fs[n] {
      g := ClipOneKeeps(f, b, t);
    } else {
      g := ClipAllKeeps(fs[..n], b, f, t);
    }
  }

  /** The passes of all blocks keep every instant of the range that no block
      dated the range's first day covers. */
  lemma {:induction false} ClipBlocksKeeps(r: Range, blocks: seq<Block>, t: int) returns (g: Range)
    requires forall b :: b in blocks ==> WellTimed(b)
    requires r.start <= t < r.end && !BlockedOn(blocks, DayOf(r.start), t)
    ensures g in ClipBlocks([r], blocks) && g.start <= t < g.end
    decreases |blocks|
  {
    if blocks == [] {
      g := r;
    } else {
      var n := |blocks| - 1;
      assert forall b :: b in blocks[..n] ==> b in blocks;
      var f := ClipBlocksKeeps(r, blocks[..n], t);
      ClipBlocksGood(r, blocks[..n]);
      assert Kept(f, r, DayOf(r.start));
      assert blocks[n] in blocks;
      g := ClipAllKeeps(ClipBlocks([r], blocks[..n]), blocks[n], f, t);
    }
  }

  /** A range that stays within its first day overlaps no block at all. */
  lemma LimitsAvoidAll(r: Range, blocks: seq<Block>)
    requires forall b :: b in blocks ==> WellTimed(b)
    requires r.end <= (DayOf(r.start) + 1) * MinutesPerDay
    ensures forall f, b :: f in Limits(r, blocks) && b in blocks ==>
              f.end <= BlockStart(b) || BlockEnd(b) <= f.start
  {
    LimitsSound(r, blocks);
    var d := DayOf(r.start);
    forall f, b | f in Limits(r, blocks) && b in blocks
      ensures f.end <= BlockStart(b) || BlockEnd(b) <= f.start
    {
      DayAndTime(f.start);
      if b.date < d {
        assert (b.date + 1) * MinutesPerDay <= d * MinutesPerDay;
      } else if b.date > d {
        assert b.date * MinutesPerDay >= (d + 1) * MinutesPerDay;
      }
    }
  }

  /** Since only the fragment's start is compared with a block's day, a
      range from 23:00 to 02:00 the next day keeps the 00:00-01:00 block of
      that next day inside it. */
  lemma LimitsMissLaterDay()
    ensures var r := Range(23 * 60, MinutesPerDay + 2 * 60);
            var b := Block(Some(1), 1, 0, 60);
            Limits(r, [b]) == [r] && r.start < BlockEnd(b) && BlockStart(b) < r.end
  {
    var r := Range(23 * 60, MinutesPerDay + 2 * 60);
    var b := Block(Some(1), 1, 0, 60);
    assert DayOf(r.start) == 0;
    OneClip(r, b);
    assert ClipBlocks([r], [b]) == [r] by {
      assert [b][..0] == [];
    }
    assert [r][..0] == [];
  }

  /** A range that touches no block on its day comes back whole. */
  lemma {:induction false} LimitsFree(r: Range, blocks: seq<Block>)
    requires r.start < r.end
    requires forall b :: b in blocks ==> !ClipOverlaps(r, b)
    ensures Limits(r, blocks) == [r]
  {
    ClipBlocksUntouched(r, blocks);
  }

  lemma {:induction false} ClipBlocksUntouched(r: Range, blocks: seq<Block>)
    requires forall b :: b in blocks ==> !ClipOverlaps(r, b)
    ensures ClipBlocks([r], blocks) == [r]
    decreases |blocks|
  {
    if blocks != [] {
      var n := |blocks| - 1;
      assert forall b :: b in blocks[..n] ==> b in blocks;
      ClipBlocksUntouched(r, blocks[..n]);
      assert blocks[n] in blocks;
      OneClip(r, blocks[n]);
    }
  }

  /** A single fragment's pass is its clip. */
  lemma OneClip(f: Range, b: Block)
    ensures ClipAll([f], b) == ClipOne(f, b)
  {
    assert [f][..0] == [];
  }

  /** A range strictly containing a block on its day is split into exactly
      the part before and the part after the block. */
  lemma LimitsAroundOne(r: Range, b: Block)
    requires DayOf(r.start) == b.date
    requires r.start < BlockStart(b) <= BlockEnd(b) < r.end
    ensures Limits(r, [b]) == [Range(r.start, BlockStart(b)), Range(BlockEnd(b), r.end)]
  {
    var pieces := [Range(r.start, BlockStart(b)), Range(BlockEnd(b), r.end)];
    ClipSingle(r, b);
    assert ClipOne(r, b) == pieces;
    PositiveKeepsAll(pieces);
  }

  /** Against a single block, the blocks' passes are that block's clip. */
  lemma ClipSingle(r: Range, b: Block)
    ensures ClipBlocks([r], [b]) == ClipOne(r, b)
  {
    assert [b][..0] == [];
    OneClip(r, b);
  }

  /** Filtering fragments that are all positive keeps them all. */
  lemma {:induction false} PositiveKeepsAll(fs: seq<Range>)
    requires forall k :: 0 <= k < |fs| ==> fs[k].start < fs[k].end
    ensures Positive(fs) == fs
    decreases |fs|
  {
    if fs != [] {
      var n := |fs| - 1;
      PositiveKeepsAll(fs[..n]);
      assert fs == fs[..n] + [fs[n]];
    }
  }

  /** A range inside an existing block clips to nothing, so the add handler
      loses nothing by not asking for its limits. */
  lemma WithinClipsToNothing(blocks: seq<Block>, start: int, end: int)
    requires forall b :: b in blocks ==> WellTimed(b)
    requires IsCompletelyWithin(blocks, start, end)
    ensures Limits(Range(start, end), blocks) == []
  {
    var r := Range(start, end);
    var k :| 0 <= k < |blocks| && Inside(blocks[k], start, end);
    var b := blocks[k];
    assert b in blocks;
    InstantParts(b.date, b.startTime);
    LimitsSound(r, blocks);
    var fs := Limits(r, blocks);
    if fs != [] {
      FirstIsMember(fs);
      assert false;
    }
  }

  /** A non-empty list holds its first element, which `LimitsSound` then
      rules out. */
  lemma FirstIsMember(fs: seq<Range>)
    requires fs != []
    ensures fs[0] in fs
  {
  }

  // ---------------------------------------------------------------------
  // Calendar events
  // ---------------------------------------------------------------------

  /** `toCalendarEvent`: a block shown at its UTC instants. */
  function ToCalendarEvent(b: Block): (e: Event)
    ensures e.id == BlockId(b.id) && e.isAvailability && !e.isPreview
  {
    Event(BlockId(b.id), "Disponible", BlockStart(b), BlockEnd(b), true, false)
  }

  /** An add-preview event, named after its start. */
  function PreviewEvent(r: Range): (e: Event)
    ensures e.isPreview && !e.isAvailability && e.start == r.start && e.end == r.end
  {
    Event(NewId(r.start), "Nuevo turno", r.start, r.end, false, true)
  }

  /** The ranges an add draft holds. */
  function DraftSlots(draft: Option<AddDraft>): seq<Range>
  {
    match draft
    case None => []
    case Some(Single(r)) => [r]
    case Some(Split(slots)) => slots
  }

  /** The edit target's event moved to its new range and marked as a preview. */
  function Edited(e: Event, edit: Option<EditDraft>): (r: Event)
    ensures r.id == e.id && r.title == e.title && r.isAvailability == e.isAvailability
    ensures edit.Some? && e.id == edit.value.original.id ==>
              r.start == edit.value.modified.start && r.end == edit.value.modified.end && r.isPreview
    ensures edit.None? || e.id != edit.value.original.id ==> r == e
  {
    if edit.Some? && e.id == edit.value.original.id
    then e.(start := edit.value.modified.start, end := edit.value.modified.end, isPreview := true)
    else e
  }

  /** The delete target's event marked as a preview. */
  function Deleted(e: Event, target: Option<Event>): (r: Event)
    ensures r.(isPreview := e.isPreview) == e
    ensures target.Some? && e.id == target.value.id ==> r.isPreview
    ensures target.None? || e.id != target.value.id ==> r == e
  {
    if target.Some? && e.id == target.value.id then e.(isPreview := true) else e
  }

  /** A block moved to a new range by a confirmed edit: the UTC day of the
      new start, and the UTC times of day of the new start and end. */
  function Moved(b: Block, r: Range): (m: Block)
    ensures m.id == b.id && WellTimed(m)
    ensures m.date == DayOf(r.start) && m.startTime == TimeOfDay(r.start) && m.endTime == TimeOfDay(r.end)
  {
    b.(date := DayOf(r.start), startTime := TimeOfDay(r.start), endTime := TimeOfDay(r.end))
  }

  /** The block a confirmed add stores for a range. */
  function ToBlock(r: Range): (b: Block)
    ensures b.id.None? && WellTimed(b)
    ensures b.date == DayOf(r.start) && b.startTime == TimeOfDay(r.start) && b.endTime == TimeOfDay(r.end)
  {
    Block(None, DayOf(r.start), TimeOfDay(r.start), TimeOfDay(r.end))
  }

  /** The blocks a confirmed add stores, one per draft range, in order. */
  function ToBlocks(rs: seq<Range>): (bs: seq<Block>)
    ensures |bs| == |rs|
  {
    seq(|rs|, k requires 0 <= k < |rs| => ToBlock(rs[k]))
  }

  /** A range within one day is stored as a block that is shown at exactly
      that range again, after an add or after an edit. */
  lemma StoredRoundTrip(b: Block, r: Range)
    requires DayOf(r.start) == DayOf(r.end)
    ensures ToCalendarEvent(ToBlock(r)).start == r.start && ToCalendarEvent(ToBlock(r)).end == r.end
    ensures ToCalendarEvent(Moved(b, r)).start == r.start && ToCalendarEvent(Moved(b, r)).end == r.end
  {
    DayAndTime(r.start);
    DayAndTime(r.end);
  }

  /** `filter(s => s.id !== target)`: the blocks whose id differs from the
      deleted event's, in order. */
  function RemoveBlocks(blocks: seq<Block>, id: EventId): (r: seq<Block>)
    ensures |r| <= |blocks|
  {
    if blocks == [] then []
    else RemoveBlocks(blocks[..|blocks| - 1], id)
         + (if BlockId(blocks[|blocks| - 1].id) != id then [blocks[|blocks| - 1]] else [])
  }

  /** The blocks kept are exactly those whose id differs from the target's. */
  lemma {:induction false} RemoveBlocksMembers(blocks: seq<Block>, id: EventId)
    ensures forall b :: b in RemoveBlocks(blocks, id) <==> b in blocks && BlockId(b.id) != id
    decreases |blocks|
  {
    if blocks != [] {
      var n := |blocks| - 1;
      RemoveBlocksMembers(blocks[..n], id);
      assert blocks == blocks[..n] + [blocks[n]];
    }
  }

  /** The filter extended by one block keeps that block exactly when its id
      differs. */
  lemma RemoveBlocksSnoc(xs: seq<Block>, x: Block, id: EventId)
    ensures RemoveBlocks(xs + [x], id) == RemoveBlocks(xs, id) + (if BlockId(x.id) != id then [x] else [])
  {
    assert (xs + [x])[..|xs|] == xs;
  }

  /** The filter distributes over concatenation, so it keeps the kept
      blocks in their order. */
  lemma {:induction false} RemoveBlocksConcat(xs: seq<Block>, ys: seq<Block>, id: EventId)
    ensures RemoveBlocks(xs + ys, id) == RemoveBlocks(xs, id) + RemoveBlocks(ys, id)
    decreases |ys|
  {
    if ys == [] {
      assert xs + ys == xs;
    } else {
      var n := |ys| - 1;
      assert xs + ys == (xs + ys[..n]) + [ys[n]];
      assert ys == ys[..n] + [ys[n]];
      RemoveBlocksSnoc(xs + ys[..n], ys[n], id);
      RemoveBlocksSnoc(ys[..n], ys[n], id);
      RemoveBlocksConcat(xs, ys[..n], id);
    }
  }

  /** A kept block occurs as often as in the input, a removed one not at all. */
  lemma {:induction false} RemoveBlocksCount(blocks: seq<Block>, id: EventId)
    ensures forall b :: multiset(RemoveBlocks(blocks, id))[b] == if BlockId(b.id) != id then multiset(blocks)[b] else 0
    decreases |blocks|
  {
    if blocks != [] {
      var n := |blocks| - 1;
      RemoveBlocksCount(blocks[..n], id);
      assert blocks == blocks[..n] + [blocks[n]];
    }
  }

  /** Removing an id that no block has is the identity. */
  lemma {:induction false} RemoveBlocksAbsent(blocks: seq<Block>, id: EventId)
    requires forall b :: b in blocks ==> BlockId(b.id) != id
    ensures RemoveBlocks(blocks, id) == blocks
    decreases |blocks|
  {
    if blocks != [] {
      var n := |blocks| - 1;
      assert blocks == blocks[..n] + [blocks[n]];
      assert forall b :: b in blocks[..n] ==> b in blocks;
      RemoveBlocksAbsent(blocks[..n], id);
    }
  }

  /** A sound add draft: a single range of positive length, or at least two
      fragments of positive length. */
  predicate DraftSound(d: AddDraft)
  {
    match d
    case Single(r) => r.start < r.end
    case Split(slots) => |slots| >= 2 && forall r :: r in slots ==> r.start < r.end
  }

  /** One block's pass of `createLimits`: the splice loop that replaces
      every fragment overlapping the block by its parts outside the block. */
  method SplicePass(input: seq<Range>, oldSlot: Block) returns (fragments: seq<Range>)
    ensures fragments == ClipAll(input, oldSlot)
  {
    var oldSlotStart := Instant(oldSlot.date, oldSlot.startTime);
    var oldSlotEnd := Instant(oldSlot.date, oldSlot.endTime);
    fragments := input;
    ghost var j := 0;
    var i := 0;
    while i < |fragments|
      invariant 0 <= j <= |input|
      invariant i == |ClipAll(input[..j], oldSlot)|
      invariant fragments == ClipAll(input[..j], oldSlot) + input[j..]
      decreases |input| - j
    {
      var frag := fragments[i];
      var fStart, fEnd := frag.start, frag.end;
      SpliceStep(input, j, oldSlot);
      if DayOf(fStart) == oldSlot.date && fStart < oldSlotEnd && fEnd > oldSlotStart {
        var newFrags := Pieces(frag, oldSlot);
        fragments := fragments[..i] + newFrags + fragments[i + 1..];
        assert fragments == ClipAll(input[..j + 1], oldSlot) + input[j + 1..];
        i := i + |newFrags|;
        j := j + 1;
        continue;
      }
      assert fragments == ClipAll(input[..j + 1], oldSlot) + input[j + 1..];
      i := i + 1;
      j := j + 1;
    }
    assert input[..|input|] == input;
  }

  /** The parts of an overlapping fragment left and right of the block. */
  method Pieces(frag: Range, oldSlot: Block) returns (newFrags: seq<Range>)
    requires ClipOverlaps(frag, oldSlot)
    ensures newFrags == ClipOne(frag, oldSlot)
  {
    var oldSlotStart := Instant(oldSlot.date, oldSlot.startTime);
    var oldSlotEnd := Instant(oldSlot.date, oldSlot.endTime);
    newFrags := [];
    if frag.start < oldSlotStart {
      newFrags := newFrags + [Range(frag.start, oldSlotStart)];
    }
    if frag.end > oldSlotEnd {
      newFrags := newFrags + [Range(oldSlotEnd, frag.end)];
    }
  }

  /** One step of the splice loop: in the working list "processed prefix,
      then the input still to do", the next fragment is the first one still
      to do, and replacing it by its clip extends the processed prefix. */
  lemma SpliceStep(input: seq<Range>, j: int, b: Block)
    requires 0 <= j < |input|
    ensures var done := ClipAll(input[..j], b);
            var fragments := done + input[j..];
            && |done| < |fragments| && fragments[|done|] == input[j]
            && fragments[..|done|] + ClipOne(input[j], b) + fragments[|done| + 1..]
               == ClipAll(input[..j + 1], b) + input[j + 1..]
            && (!ClipOverlaps(input[j], b) ==> fragments == ClipAll(input[..j + 1], b) + input[j + 1..])
  {
    var done := ClipAll(input[..j], b);
    var fragments := done + input[j..];
    assert input[..j + 1][..j] == input[..j];
    assert fragments[..|done|] == done;
    assert fragments[|done| + 1..] == input[j + 1..];
    assert fragments == fragments[..|done|] + [input[j]] + fragments[|done| + 1..];
  }

  /** The editor's state. */
  class Planner {
    var currentMode: Mode
    var availability: seq<Block>
    var addTarget: Option<AddDraft>
    var editTarget: Option<EditDraft>
    var deleteTarget: Option<Event>
    /** The day the calendar shows; the week around it is fetched. */
    var localDate: int

    /** An add draft is always sound. */
    ghost predicate Valid()
      reads this
    {
      addTarget.Some? ==> DraftSound(addTarget.value)
    }

    constructor (selectedDate: int)
      ensures Valid()
      ensures currentMode == View && availability == [] && localDate == selectedDate
      ensures addTarget.None? && editTarget.None? && deleteTarget.None?
    {
      currentMode := View;
      availability := [];
      addTarget := None;
      editTarget := None;
      deleteTarget := None;
      localDate := selectedDate;
    }

    /** The mode selector's buttons: only the mode changes. */
    method SetMode(newMode: Mode)
      requires Valid()
      modifies this
      ensures Valid()
      ensures currentMode == newMode
      ensures availability == old(availability) && localDate == old(localDate)
      ensures addTarget == old(addTarget) && editTarget == old(editTarget) && deleteTarget == old(deleteTarget)
    {
      currentMode := newMode;
    }

    /** The week's blocks as fetched. */
    method ReceiveAvailability(blocks: seq<Block>)
      requires Valid()
      modifies this
      ensures Valid()
      ensures availability == blocks
      ensures currentMode == old(currentMode) && localDate == old(localDate)
      ensures addTarget == old(addTarget) && editTarget == old(editTarget) && deleteTarget == old(deleteTarget)
    {
      availability := blocks;
    }

    /** `createLimits`: the proposed range clipped against every block by an
        in-place splice loop, then the empty fragments dropped. */
    method CreateLimits(start: int, end: int) returns (limits: seq<Range>)
      ensures limits == Limits(Range(start, end), availability)
      ensures forall f :: f in limits ==> f.start < f.end
    {
      var newBlock := Range(start, end);
      var fragments := [newBlock];
      for k := 0 to |availability|
        invariant fragments == ClipBlocks([newBlock], availability[..k])
      {
        var oldSlot := availability[k];
        fragments := SplicePass(fragments, oldSlot);
        assert availability[..k + 1][..k] == availability[..k];
      }
      assert availability[..|availability|] == availability;
      limits := Positive(fragments);
      PositiveMembers(fragments);
    }

    /** `handleADDSelectSlot`: in add mode, a range not already inside a
        block becomes the add draft, split as its limits say; no limits
        leave the draft as it was. */
    method HandleAddSelectSlot(start: int, end: int)
      requires Valid()
      modifies this
      ensures Valid()
      ensures currentMode == old(currentMode) && availability == old(availability) && localDate == old(localDate)
      ensures editTarget == old(editTarget) && deleteTarget == old(deleteTarget)
      ensures currentMode != Add || IsCompletelyWithin(availability, start, end) ==> addTarget == old(addTarget)
      ensures currentMode == Add && !IsCompletelyWithin(availability, start, end) ==>
                var limits := Limits(Range(start, end), availability);
                addTarget == (if |limits| == 0 then old(addTarget)
                              else if |limits| == 1 then Some(Single(limits[0]))
                              else Some(Split(limits)))
    {
      if currentMode == Add {
        if !IsCompletelyWithin(availability, start, end) {
          var newSlots := CreateLimits(start, end);
          if |newSlots| == 0 {
            // the user is told that there is no free room
          } else if |newSlots| == 1 {
            assert newSlots[0] in newSlots;
            addTarget := Some(Single(Range(newSlots[0].start, newSlots[0].end)));
          } else {
            addTarget := Some(Split(newSlots));
          }
        }
      }
    }

    /** `handleEventResize`, as written: the guard is a disjunction, so
        resizing any availability event sets the edit draft in every mode,
        and in edit mode any event does. */
    method HandleEventResize(event: Event, start: int, end: int)
      requires Valid()
      modifies this
      ensures Valid()
      ensures editTarget == (if old(currentMode) == Edit || event.isAvailability
                             then Some(EditDraft(event, Range(start, end))) else old(editTarget))
      ensures currentMode == old(currentMode) && availability == old(availability) && localDate == old(localDate)
      ensures addTarget == old(addTarget) && deleteTarget == old(deleteTarget)
    {
      if currentMode == Edit || event.isAvailability {
        editTarget := Some(EditDraft(event, Range(start, end)));
      }
    }

    /** `handleEventDrop`, as written: the guard compares the frozen table of
        mode names with the string for edit mode, which never holds, so the
        handler always returns before setting a draft. */
    method HandleEventDrop(event: Event, start: int, end: int)
      requires Valid()
      modifies this
      ensures Valid()
      ensures editTarget == old(editTarget)
      ensures currentMode == old(currentMode) && availability == old(availability) && localDate == old(localDate)
      ensures addTarget == old(addTarget) && deleteTarget == old(deleteTarget)
    {
      // the early return is always taken
    }

    /** `handleSelectEvent`: in delete mode an availability event becomes
        the delete draft. */
    method HandleSelectEvent(event: Event)
      requires Valid()
      modifies this
      ensures Valid()
      ensures deleteTarget == (if old(currentMode) == Delete && event.isAvailability
                               then Some(event) else old(deleteTarget))
      ensures currentMode == old(currentMode) && availability == old(availability) && localDate == old(localDate)
      ensures addTarget == old(addTarget) && editTarget == old(editTarget)
    {
      if currentMode == Delete && event.isAvailability {
        deleteTarget := Some(event);
      }
    }

    /** `buildEvents`: one event per block, then one preview per add-draft
        range. Only the events of the edit and delete targets differ from
        their plain conversion. */
    method BuildEvents() returns (events: seq<Event>)
      ensures |events| == |availability| + |DraftSlots(addTarget)|
      ensures forall k :: 0 <= k < |availability| ==>
                events[k] == Deleted(Edited(ToCalendarEvent(availability[k]), editTarget), deleteTarget)
      ensures forall k :: 0 <= k < |DraftSlots(addTarget)| ==>
                events[|availability| + k] == Deleted(PreviewEvent(DraftSlots(addTarget)[k]), deleteTarget)
    {
      var blocks := availability;
      events := seq(|blocks|, k requires 0 <= k < |blocks| => ToCalendarEvent(blocks[k]));
      if editTarget.Some? {
        var edit := editTarget;
        var plain := events;
        events := seq(|plain|, k requires 0 <= k < |plain| => Edited(plain[k], edit));
      }
      if addTarget.Some? {
        var previews := DraftSlots(addTarget);
        for k := 0 to |previews|
          invariant |events| == |blocks| + k
          invariant forall i :: 0 <= i < |blocks| ==> events[i] == Edited(ToCalendarEvent(blocks[i]), editTarget)
          invariant forall i :: 0 <= i < k ==> events[|blocks| + i] == PreviewEvent(previews[i])
        {
          events := events + [PreviewEvent(previews[k])];
        }
      }
      if deleteTarget.Some? {
        var target := deleteTarget;
        var marked := events;
        events := seq(|marked|, k requires 0 <= k < |marked| => Deleted(marked[k], target));
      }
    }

    /** `confirmAdd`: with a draft and an accepted request, the draft's
        ranges are appended as blocks and the draft is cleared; otherwise
        nothing changes. */
    method ConfirmAdd(accepted: bool)
      requires Valid()
      modifies this
      ensures Valid()
      ensures old(addTarget).Some? && accepted ==>
                availability == old(availability) + ToBlocks(DraftSlots(old(addTarget))) && addTarget.None?
      ensures old(addTarget).None? || !accepted ==>
                availability == old(availability) && addTarget == old(addTarget)
      ensures currentMode == old(currentMode) && localDate == old(localDate)
      ensures editTarget == old(editTarget) && deleteTarget == old(deleteTarget)
    {
      if addTarget.None? {
        return;
      }
      var slotsToInsert := DraftSlots(addTarget);
      var formattedSlots := ToBlocks(slotsToInsert);
      if !accepted {
        // the server's refusal is reported to the user
        return;
      }
      availability := availability + formattedSlots;
      addTarget := None;
    }

    /** `confirmEdit`: with a draft and an accepted request, every block
        whose id is the edited event's moves to the new range and the draft
        is cleared; otherwise nothing changes (without a draft, or when the
        request fails, the handler's error path throws before any update). */
    method ConfirmEdit(accepted: bool)
      requires Valid()
      modifies this
      ensures Valid()
      ensures old(editTarget).Some? && accepted ==>
                && |availability| == |old(availability)|
                && (forall k :: 0 <= k < |availability| ==>
                      availability[k] == (if BlockId(old(availability)[k].id) == old(editTarget).value.original.id
                                          then Moved(old(availability)[k], old(editTarget).value.modified)
                                          else old(availability)[k]))
                && editTarget.None?
      ensures old(editTarget).None? || !accepted ==>
                availability == old(availability) && editTarget == old(editTarget)
      ensures currentMode == old(currentMode) && localDate == old(localDate)
      ensures addTarget == old(addTarget) && deleteTarget == old(deleteTarget)
    {
      if editTarget.None? || !accepted {
        return;
      }
      var edit := editTarget.value;
      var prev := availability;
      availability := seq(|prev|, k requires 0 <= k < |prev| =>
                            if BlockId(prev[k].id) == edit.original.id then Moved(prev[k], edit.modified) else prev[k]);
      editTarget := None;
    }

    /** `confirmDelete`: with a draft and an accepted request, the blocks
        whose id is the deleted event's are removed and the draft is
        cleared; otherwise nothing changes. */
    method ConfirmDelete(accepted: bool)
      requires Valid()
      modifies this
      ensures Valid()
      ensures old(deleteTarget).Some? && accepted ==>
                availability == RemoveBlocks(old(availability), old(deleteTarget).value.id) && deleteTarget.None?
      ensures old(deleteTarget).None? || !accepted ==>
                availability == old(availability) && deleteTarget == old(deleteTarget)
      ensures currentMode == old(currentMode) && localDate == old(localDate)
      ensures addTarget == old(addTarget) && editTarget == old(editTarget)
    {
      if deleteTarget.None? || !accepted {
        return;
      }
      availability := RemoveBlocks(availability, deleteTarget.value.id);
      deleteTarget := None;
    }

    /** The add draft's cancel button. */
    method CancelAdd()
      requires Valid()
      modifies this
      ensures Valid()
      ensures addTarget.None?
      ensures currentMode == old(currentMode) && availability == old(availability) && localDate == old(localDate)
      ensures editTarget == old(editTarget) && deleteTarget == old(deleteTarget)
    {
      addTarget := None;
    }

    /** The edit draft's cancel button. */
    method CancelEdit()
      requires Valid()
      modifies this
      ensures Valid()
      ensures editTarget.None?
      ensures currentMode == old(currentMode) && availability == old(availability) && localDate == old(localDate)
      ensures addTarget == old(addTarget) && deleteTarget == old(deleteTarget)
    {
      editTarget := None;
    }

    /** The delete draft's cancel button. */
    method CancelDelete()
      requires Valid()
      modifies this
      ensures Valid()
      ensures deleteTarget.None?
      ensures currentMode == old(currentMode) && availability == old(availability) && localDate == old(localDate)
      ensures addTarget == old(addTarget) && editTarget == old(editTarget)
    {
      deleteTarget := None;
    }

    /** `handleNavigate`: the calendar moves to the Monday of the new date's
        week. */
    method HandleNavigate(newDate: int)
      requires Valid()
      modifies this
      ensures Valid()
      ensures localDate == Calendar.IsoWeekStart(newDate)
      ensures Calendar.WeekDay(localDate) == Calendar.Monday && localDate <= newDate <= localDate + 6
      ensures currentMode == old(currentMode) && availability == old(availability)
      ensures addTarget == old(addTarget) && editTarget == old(editTarget) && deleteTarget == old(deleteTarget)
    {
      localDate := Calendar.IsoWeekStart(newDate);
      Calendar.IsoWeekStartIsMonday(newDate);
    }
  }
}
