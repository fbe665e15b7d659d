/**
  The queue backlog report of the ProcessRobot log handler: one entry per
  row of the `queues` table, in listing order, with the number of new items
  each queue holds in the `queue_items` table.
 */
module QueueStats {

  /** A row of the `queues` table, reduced to the columns the report reads. */
  datatype Queue = Queue(id: int, name: string, itemType: string)

  /** A row of the `queue_items` table, reduced to the columns the count filters on. */
  datatype QueueItem = QueueItem(queueId: int, status: int)

  /** The `status` value of an item nobody has processed yet. */
  const NewStatus: int := 0

  /** One entry of the report. */
  datatype QueueSummary = QueueSummary(queueId: int, queueName: string, itemType: string, newItems: nat)

  /** The report: entries keyed `0 .. n-1`, and the number of queues under `total_queues`. */
  datatype Report = Report(entries: map<nat, QueueSummary>, totalQueues: nat)

  /** The `WHERE queue_id=… AND status=0` filter of the count. */
  predicate IsNew(item: QueueItem, queueId: int) {
    item.queueId == queueId && item.status == NewStatus
  }

  /** `SELECT COUNT(*) … WHERE queue_id=… AND status=0`, counted from the last item back. */
  function NewItems(items: seq<QueueItem>, queueId: int): (count: nat)
    ensures count <= |items|
  {
    if |items| == 0 then 0
    else NewItems(items[..|items| - 1], queueId) + (if IsNew(items[|items| - 1], queueId) then 1 else 0)
  }

  /** The positions of the new items of a queue. */
  function NewItemPositions(items: seq<QueueItem>, queueId: int): set<nat> {
    set k: nat | k < |items| && IsNew(items[k], queueId)
  }

  /** The positions in a table are those in all but its last item, and the last one if it is new. */
  lemma NewItemPositionsStep(items: seq<QueueItem>, queueId: int)
    requires |items| > 0
    ensures var last := |items| - 1;
      NewItemPositions(items, queueId) ==
        NewItemPositions(items[..last], queueId) + (if IsNew(items[last], queueId) then {last} else {})
  {
    var last := |items| - 1;
    var prefix := items[..last];
    var before := NewItemPositions(prefix, queueId);
    var all := NewItemPositions(items, queueId);
    var added: set<nat> := if IsNew(items[last], queueId) then {last} else {};
    forall k: nat | k < last ensures (k in all) == (k in before) {
      assert prefix[k] == items[k];
    }
    assert forall k: nat :: k in all <==> k in before + added;
  }

  /** The count is the number of positions holding a new item of the queue. */
  lemma {:induction false} NewItemsCountsPositions(items: seq<QueueItem>, queueId: int)
    ensures NewItems(items, queueId) == |NewItemPositions(items, queueId)|
  {
    if |items| > 0 {
      var last := |items| - 1;
      NewItemsCountsPositions(items[..last], queueId);
      NewItemPositionsStep(items, queueId);
      assert last !in NewItemPositions(items[..last], queueId);
    }
  }

  /** A queue has no new items exactly when no item is a new item of it. */
  lemma {:induction false} NewItemsZero(items: seq<QueueItem>, queueId: int)
    ensures NewItems(items, queueId) == 0 <==> forall k :: 0 <= k < |items| ==> !IsNew(items[k], queueId)
  {
    if |items| > 0 {
      var last := |items| - 1;
      var prefix := items[..last];
      NewItemsZero(prefix, queueId);
      if NewItems(items, queueId) == 0 {
        forall k | 0 <= k < |items| ensures !IsNew(items[k], queueId) {
          if k < last {
            assert prefix[k] == items[k];
          }
        }
      } else if !IsNew(items[last], queueId) {
        var k :| 0 <= k < |prefix| && IsNew(prefix[k], queueId);
        assert items[k] == prefix[k];
      }
    }
  }

  /** Items of other queues, or already processed, do not change a queue's count. */
  lemma {:induction false} NewItemsAppend(items: seq<QueueItem>, more: seq<QueueItem>, queueId: int)
    ensures NewItems(items + more, queueId) == NewItems(items, queueId) + NewItems(more, queueId)
    decreases |more|
  {
    if |more| > 0 {
      var last := |more| - 1;
      assert (items + more)[..|items| + last] == items + more[..last];
      NewItemsAppend(items, more[..last], queueId);
    } else {
      assert items + more == items;
    }
  }

  /** The entry for one queue: its columns and its count of new items. */
  function SummaryOf(queue: Queue, items: seq<QueueItem>): QueueSummary {
    QueueSummary(queue.id, queue.name, queue.itemType, NewItems(items, queue.id))
  }

  /**
    Walks the queues in listing order, adding the entry of each under the
    next counter value, and records the final counter as the total.
   */
  method GetQueueStats(queues: seq<Queue>, items: seq<QueueItem>) returns (report: Report)
    ensures report.totalQueues == |queues|
    ensures forall k: nat :: k in report.entries <==> k < |queues|
    ensures forall k: nat :: k < |queues| ==>
      && report.entries[k].queueId == queues[k].id
      && report.entries[k].queueName == queues[k].name
      && report.entries[k].itemType == queues[k].itemType
      && report.entries[k].newItems == |NewItemPositions(items, queues[k].id)|
  {
    var counter: nat := 0;
    var entries: map<nat, QueueSummary> := map[];
    while counter < |queues|
      invariant counter <= |queues|
      invariant forall k: nat :: k in entries <==> k < counter
      invariant forall k: nat :: k < counter ==> entries[k] == SummaryOf(queues[k], items)
      invariant forall k: nat :: k < counter ==> entries[k].newItems == |NewItemPositions(items, queues[k].id)|
    {
      NewItemsCountsPositions(items, queues[counter].id);
      entries := entries[counter := SummaryOf(queues[counter], items)];
      counter := counter + 1;
    }
    report := Report(entries, counter);
  }
}
