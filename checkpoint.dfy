/** The checkpointing item pipeline of the crawler: an in-memory buffer of new items,
    keyed by page key, flushed every `CheckpointInterval` new items into a durable
    key-value file by key-wise upsert. */
module Checkpoint {
  import opened Common
  import opened Items

  /** A key -> item dictionary: the buffer, and the content of the checkpoint file. */
  type Store = map<string, ScraperItem>

  /** Number of newly buffered items between two flushes. */
  const CheckpointInterval: nat := 500

  /** The keys held by the checkpoint file; a file that does not exist holds none. */
  function FileKeys(file: Option<Store>): set<string>
  {
    if file.Some? then file.value.Keys else {}
  }

  /** The file content after a flush of `buffer`: an existing file is updated key by key
      (buffer values win, nothing is removed); a missing file becomes exactly the buffer. */
  function Merge(file: Option<Store>, buffer: Store): (r: Store)
    ensures r.Keys == FileKeys(file) + buffer.Keys
    ensures forall k :: k in buffer ==> r[k] == buffer[k]
    ensures forall k :: k in FileKeys(file) && k !in buffer ==> r[k] == file.value[k]
    ensures file.None? ==> r == buffer
  {
    match file
    case None => buffer
    case Some(existing) => existing + buffer
  }

  /** The pipeline's state as a value: buffer, new-item counter and checkpoint file. */
  datatype PipelineState = PipelineState(items: Store, itemsScraped: nat, file: Option<Store>)

  /** Between calls the buffer holds exactly the items counted since the last multiple of the interval. */
  ghost predicate BufferInvariant(s: PipelineState)
  {
    |s.items| == s.itemsScraped % CheckpointInterval
  }

  /** Effect of a flush: merge the buffer into the file and empty the buffer; the counter stays. */
  function Flush(s: PipelineState): PipelineState
  {
    PipelineState(map[], s.itemsScraped, Some(Merge(s.file, s.items)))
  }

  /** Effect of processing one item: a key already buffered changes nothing; a new key is
      buffered and counted, and the buffer is flushed when the counter reaches a multiple
      of the interval. */
  function ProcessStep(s: PipelineState, item: ScraperItem): PipelineState
  {
    if item.key in s.items then s
    else
      var next := PipelineState(s.items[item.key := item], s.itemsScraped + 1, s.file);
      if next.itemsScraped % CheckpointInterval == 0 then Flush(next) else next
  }

  /** Effect of closing the spider: flush whatever is buffered, if anything. */
  function CloseStep(s: PipelineState): PipelineState
  {
    if s.items != map[] then Flush(s) else s
  }

  /** Effect of processing a sequence of items in order. */
  function ProcessAll(s: PipelineState, items: seq<ScraperItem>): PipelineState
    decreases |items|
  {
    if items == [] then s else ProcessAll(ProcessStep(s, items[0]), items[1..])
  }

  /** Processing an item keeps the buffer size equal to the counter modulo the interval,
      so the buffer never reaches the interval. */
  lemma ProcessStepKeepsInvariant(s: PipelineState, item: ScraperItem)
    requires BufferInvariant(s)
    ensures BufferInvariant(ProcessStep(s, item))
    ensures |ProcessStep(s, item).items| < CheckpointInterval
  {
    if item.key !in s.items {
      assert |s.items[item.key := item]| == |s.items| + 1;
    }
  }

  /** Every key ever buffered is, after more processing, still buffered or in the file;
      the file never loses a key; the buffer invariant is preserved. */
  lemma {:induction false} ProcessAllKeepsKeys(s: PipelineState, items: seq<ScraperItem>)
    requires BufferInvariant(s)
    ensures BufferInvariant(ProcessAll(s, items))
    ensures FileKeys(s.file) <= FileKeys(ProcessAll(s, items).file)
    ensures s.items.Keys <= ProcessAll(s, items).items.Keys + FileKeys(ProcessAll(s, items).file)
    ensures forall i :: 0 <= i < |items| ==>
              items[i].key in ProcessAll(s, items).items.Keys + FileKeys(ProcessAll(s, items).file)
    decreases |items|
  {
    if items != [] {
      var next := ProcessStep(s, items[0]);
      ProcessStepKeepsInvariant(s, items[0]);
      assert FileKeys(s.file) <= FileKeys(next.file);
      assert s.items.Keys + {items[0].key} <= next.items.Keys + FileKeys(next.file);
      ProcessAllKeepsKeys(next, items[1..]);
      forall i | 0 <= i < |items|
        ensures items[i].key in ProcessAll(s, items).items.Keys + FileKeys(ProcessAll(s, items).file)
      {
        if i > 0 {
          assert items[i] == items[1..][i - 1];
        }
      }
    }
  }

  /** After the spider closes, every processed key and every key previously buffered or
      stored is in the checkpoint file, and the buffer is empty. */
  lemma CloseAfterProcessingPersistsAll(s: PipelineState, items: seq<ScraperItem>)
    requires BufferInvariant(s)
    ensures CloseStep(ProcessAll(s, items)).items == map[]
    ensures s.items.Keys + FileKeys(s.file) <= FileKeys(CloseStep(ProcessAll(s, items)).file)
    ensures forall i :: 0 <= i < |items| ==> items[i].key in FileKeys(CloseStep(ProcessAll(s, items)).file)
  {
    ProcessAllKeepsKeys(s, items);
  }

  /** Deduplication looks only at the buffer: a key that was already flushed to the file is
      buffered and counted again, and its new item replaces the stored one at the next flush. */
  lemma FlushedKeyIsStoredAgain(s: PipelineState, item: ScraperItem)
    requires item.key in FileKeys(s.file) && item.key !in s.items
    ensures ProcessStep(s, item).itemsScraped == s.itemsScraped + 1
    ensures CloseStep(ProcessStep(s, item)).file.Some?
    ensures CloseStep(ProcessStep(s, item)).file.value[item.key] == item
  {
    assert s.items[item.key := item][item.key] == item;
  }

  /** Flushing two buffers in turn equals flushing their union, later values winning. */
  lemma MergeTwiceIsLastWriterWins(file: Option<Store>, first: Store, second: Store)
    ensures Merge(Some(Merge(file, first)), second) == Merge(file, first + second)
  {
  }

  /** Flushes of buffers with disjoint keys commute. */
  lemma DisjointMergesCommute(file: Option<Store>, a: Store, b: Store)
    requires a.Keys !! b.Keys
    ensures Merge(Some(Merge(file, a)), b) == Merge(Some(Merge(file, b)), a)
  {
    var ab := Merge(Some(Merge(file, a)), b);
    var ba := Merge(Some(Merge(file, b)), a);
    assert ab.Keys == ba.Keys;
    forall k | k in ab
      ensures ab[k] == ba[k]
    {
    }
  }

  /** The pipeline object: `items` is the buffer, `itemsScraped` counts new items, and
      `file` is the content of the checkpoint file (None while the file does not exist). */
  class HelpdeskScraperPipeline {
    var items: Store
    var itemsScraped: nat
    var file: Option<Store>

    /** The object's state as a value. */
    function State(): PipelineState
      reads this
    {
      PipelineState(items, itemsScraped, file)
    }

    ghost predicate Valid()
      reads this
    {
      BufferInvariant(State())
    }

    /** Starts with an empty buffer and a zero counter; `existingFile` is the checkpoint file
        as it is found on disk. */
    constructor (existingFile: Option<Store>)
      ensures items == map[] && itemsScraped == 0 && file == existingFile
      ensures Valid()
    {
      items := map[];
      itemsScraped := 0;
      file := existingFile;
    }

    /** Buffers an item whose key is not yet buffered, counts it, flushes at every multiple
        of the interval; returns the item unchanged in every case. */
    method ProcessItem(item: ScraperItem) returns (r: ScraperItem)
      modifies this
      ensures r == item
      ensures State() == ProcessStep(old(State()), item)
      ensures old(Valid()) ==> Valid()
      ensures item.key in old(items) ==>
                items == old(items) && itemsScraped == old(itemsScraped) && file == old(file)
      ensures item.key !in old(items) ==> itemsScraped == old(itemsScraped) + 1
      ensures item.key !in old(items) && itemsScraped % CheckpointInterval != 0 ==>
                items == old(items)[item.key := item] && file == old(file)
      ensures item.key !in old(items) && itemsScraped % CheckpointInterval == 0 ==>
                items == map[] && file == Some(Merge(old(file), old(items)[item.key := item]))
    {
      var before := State();
      var key := item.key;
      if key in items {
        return item;
      }
      items := items[key := item];
      itemsScraped := itemsScraped + 1;
      var next := State();
      if itemsScraped % CheckpointInterval == 0 {
        StoreItems();
        assert State() == Flush(next);
      }
      assert State() == ProcessStep(before, item);
      if old(Valid()) {
        ProcessStepKeepsInvariant(before, item);
      }
      return item;
    }

    /** Merges the buffer into the checkpoint file (creating it if missing) and empties the
        buffer; the counter is not reset. */
    method StoreItems()
      modifies this
      ensures State() == Flush(old(State()))
      ensures file == Some(Merge(old(file), old(items)))
      ensures items == map[] && itemsScraped == old(itemsScraped)
    {
      if file.Some? {
        var existing := file.value;
        existing := existing + items;
        file := Some(existing);
      } else {
        file := Some(items);
      }
      items := map[];
    }

    /** Flushes the remaining buffer if it is not empty. */
    method CloseSpider()
      modifies this
      ensures State() == CloseStep(old(State()))
      ensures items == map[] && itemsScraped == old(itemsScraped)
      ensures old(items) != map[] ==> file == Some(Merge(old(file), old(items)))
      ensures old(items) == map[] ==> file == old(file)
    {
      if items != map[] {
        StoreItems();
      }
    }
  }
}
