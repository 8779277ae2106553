/**
 * The entry pipeline of main.py with threads, queues and zip I/O taken out: the numbering
 * and routing of `input_worker` (lines 105-117), the per-item work of `worker`
 * (lines 84-87) and the reorder sink of `output_worker` (lines 89-103).
 */
module Pipeline {
  import opened Wrappers
  import opened WordBreak
  import opened Wbr
  import Labels

  /**
   * A container entry: its name and its content. The content is an opaque payload; only
   * for targets is it read as text and transformed.
   */
  datatype Entry = Entry(name: string, content: string)

  /**
   * A queue message `(order, zinfo, content)`. `order == None` is the abort signal;
   * `entry == None` with an order is the end marker carrying the entry count.
   */
  datatype Message = Message(order: Option<nat>, entry: Option<Entry>)

  /** `target_ext`. */
  const TargetExtensions: set<string> := {"htm", "xhtml", "html"}

  /** `filename.split('.')[-1]`: the longest suffix without a dot. */
  function Extension(name: string): (ext: string)
    ensures '.' !in ext
    ensures |ext| <= |name| && ext == name[|name| - |ext|..]
    ensures |ext| < |name| ==> name[|name| - |ext| - 1] == '.'
  {
    if |name| == 0 then ""
    else if name[|name| - 1] == '.' then ""
    else Extension(name[..|name| - 1]) + [name[|name| - 1]]
  }

  /** `is_target`: the extension is exactly one of the three, case-sensitively. */
  predicate IsTarget(name: string)
  {
    Extension(name) in TargetExtensions
  }

  /** A name without a dot is its own extension. */
  lemma {:induction false} ExtensionNoDot(name: string)
    requires '.' !in name
    ensures Extension(name) == name
  {
    if |name| > 0 {
      var init := name[..|name| - 1];
      assert '.' !in init by {
        forall i | 0 <= i < |init|
          ensures init[i] != '.'
        {
          assert init[i] == name[i];
        }
      }
      var c := name[|name| - 1];
      assert c in name;
      assert Extension(name) == Extension(init) + [c];
      ExtensionNoDot(init);
      assert init + [c] == name;
    }
  }

  /** The extension is whatever follows the last dot. */
  lemma {:induction false} ExtensionAfterDot(stem: string, ext: string)
    requires '.' !in ext
    ensures Extension(stem + ['.'] + ext) == ext
    decreases |ext|
  {
    var name := stem + ['.'] + ext;
    if |ext| > 0 {
      var init := ext[..|ext| - 1];
      assert '.' !in init by {
        forall i | 0 <= i < |init|
          ensures init[i] != '.'
        {
          assert init[i] == ext[i];
        }
      }
      var c := ext[|ext| - 1];
      assert c in ext;
      assert name[..|name| - 1] == stem + ['.'] + init;
      assert Extension(name) == Extension(stem + ['.'] + init) + [c];
      ExtensionAfterDot(stem, init);
      assert init + [c] == ext;
    } else {
      assert name[|name| - 1] == '.';
    }
  }

  /** `name` ends with `suffix`. */
  predicate EndsWith(name: string, suffix: string)
  {
    |suffix| <= |name| && name[|name| - |suffix|..] == suffix
  }

  /** A dot-free `ext` is the extension exactly when it is the whole name or follows a dot. */
  lemma ExtensionIff(name: string, ext: string)
    requires '.' !in ext
    ensures Extension(name) == ext <==> name == ext || EndsWith(name, ['.'] + ext)
  {
    var e := Extension(name);
    if e == ext && |e| < |name| {
      assert name[|name| - |e| - 1..] == ['.'] + e;
    }
    if name == ext {
      ExtensionNoDot(ext);
    } else if EndsWith(name, ['.'] + ext) {
      var stem := name[..|name| - |ext| - 1];
      assert name == stem + ['.'] + ext;
      ExtensionAfterDot(stem, ext);
    }
  }

  /**
   * A name is a target exactly when it is one of the target extensions itself or ends
   * with a dot followed by one of them.
   */
  lemma TargetIffSuffix(name: string)
    ensures IsTarget(name) <==>
      exists ext :: ext in TargetExtensions && (name == ext || EndsWith(name, ['.'] + ext))
  {
    forall ext | ext in TargetExtensions
      ensures Extension(name) == ext <==> name == ext || EndsWith(name, ['.'] + ext)
    {
      assert '.' !in ext;
      ExtensionIff(name, ext);
    }
  }

  /** Names routed to the workers; a bare `html` has no dot and still counts. */
  lemma TargetExamples()
    ensures IsTarget("b.html") && IsTarget("html")
  {
    ExtensionAfterDot("b", "html");
    assert "b" + ['.'] + "html" == "b.html";
    ExtensionNoDot("html");
  }

  /** Names copied as they are: another extension, or a target extension in another case. */
  lemma NonTargetExamples()
    ensures !IsTarget("a.txt") && !IsTarget("p.HTML")
  {
    ExtensionAfterDot("a", "txt");
    assert "a" + ['.'] + "txt" == "a.txt";
    ExtensionAfterDot("p", "HTML");
    assert "p" + ['.'] + "HTML" == "p.HTML";
  }

  /** Every entry with its order number, in listing order. */
  function Numbered(entries: seq<Entry>): seq<Message>
  {
    seq(|entries|, i requires 0 <= i < |entries| => Message(Some(i), Some(entries[i])))
  }

  /** The end marker `(n, None, None)`. */
  function EndMarker(n: nat): Message
  {
    Message(Some(n), None)
  }

  /** Whether an item goes to the work queue (`target`) or straight to the output queue. */
  predicate Routed(m: Message, target: bool)
  {
    m.entry.Some? && IsTarget(m.entry.value.name) == target
  }

  /** The items of `ms` routed to one queue, in their original order. */
  function Select(ms: seq<Message>, target: bool): (r: seq<Message>)
    ensures |r| <= |ms|
  {
    if |ms| == 0 then []
    else Select(ms[..|ms| - 1], target) + (if Routed(ms[|ms| - 1], target) then [ms[|ms| - 1]] else [])
  }

  /** A message is in a queue exactly when it is in the listing and routed to that queue. */
  lemma {:induction false} SelectMembers(ms: seq<Message>, target: bool, m: Message)
    ensures m in Select(ms, target) <==> m in ms && Routed(m, target)
  {
    if |ms| > 0 {
      var init, last := ms[..|ms| - 1], ms[|ms| - 1];
      SelectMembers(init, target, m);
      assert ms == init + [last];
    }
  }

  /** Every item carries an order number, and the numbers strictly increase along the queue. */
  ghost predicate Ascending(ms: seq<Message>)
  {
    && (forall i :: 0 <= i < |ms| ==> ms[i].order.Some?)
    && (forall i, j :: 0 <= i < j < |ms| ==> ms[i].order.value < ms[j].order.value)
  }

  /** Appending an item whose order exceeds every order in an ascending queue keeps it ascending. */
  lemma AscendingSnoc(r: seq<Message>, m: Message)
    requires Ascending(r) && m.order.Some?
    requires forall i :: 0 <= i < |r| ==> r[i].order.Some? && r[i].order.value < m.order.value
    ensures Ascending(r + [m])
  {
    var r' := r + [m];
    forall i | 0 <= i < |r'|
      ensures r'[i].order.Some?
    {
      if i < |r| {
        assert r'[i] == r[i];
      }
    }
    forall i, j | 0 <= i < j < |r'|
      ensures r'[i].order.value < r'[j].order.value
    {
      assert r'[i] == r[i];
      if j < |r| {
        assert r'[j] == r[j];
      }
    }
  }

  /** Every order in an ascending queue lies below that of the last item. */
  lemma AscendingBelowLast(ms: seq<Message>)
    requires Ascending(ms) && |ms| > 0
    ensures Ascending(ms[..|ms| - 1])
    ensures forall m :: m in ms[..|ms| - 1] ==> m.order.Some? && m.order.value < ms[|ms| - 1].order.value
  {
    var init := ms[..|ms| - 1];
    forall i | 0 <= i < |init|
      ensures init[i].order.Some?
    {
      assert init[i] == ms[i];
    }
    forall i, j | 0 <= i < j < |init|
      ensures init[i].order.value < init[j].order.value
    {
      assert init[i] == ms[i] && init[j] == ms[j];
    }
    forall m | m in init
      ensures m.order.Some? && m.order.value < ms[|ms| - 1].order.value
    {
      var k :| 0 <= k < |init| && init[k] == m;
      assert ms[k] == m;
    }
  }

  /** Routing keeps the order: a queue filled from an ascending list is ascending. */
  lemma {:induction false} SelectAscending(ms: seq<Message>, target: bool)
    requires Ascending(ms)
    ensures Ascending(Select(ms, target))
  {
    if |ms| > 0 {
      var init := ms[..|ms| - 1];
      var last := ms[|ms| - 1];
      AscendingBelowLast(ms);
      SelectAscending(init, target);
      var r0 := Select(init, target);
      assert ms == init + [last];
      SelectSnoc(init, last, target);
      if Routed(last, target) {
        assert Select(ms, target) == r0 + [last];
        forall i | 0 <= i < |r0|
          ensures r0[i].order.Some? && r0[i].order.value < last.order.value
        {
          SelectMembers(init, target, r0[i]);
          assert r0[i] in init;
        }
        AscendingSnoc(r0, last);
      } else {
        assert Select(ms, target) == r0;
      }
    }
  }

  lemma SelectSnoc(ms: seq<Message>, m: Message, target: bool)
    ensures Select(ms + [m], target) == Select(ms, target) + (if Routed(m, target) then [m] else [])
  {
    assert (ms + [m])[..|ms|] == ms;
  }

  lemma NumberedStep(entries: seq<Entry>, i: nat)
    requires i < |entries|
    ensures Numbered(entries[..i + 1]) == Numbered(entries[..i]) + [Message(Some(i), Some(entries[i]))]
    ensures Numbered(entries[..i + 1])[..i] == Numbered(entries[..i])
  {
  }

  /**
   * `input_worker`: entries are numbered 0, 1, 2, ... in listing order; targets go to the
   * work queue, the rest to the output queue, and the output queue ends with the count.
   */
  method InputWorker(entries: seq<Entry>) returns (workQueue: seq<Message>, outputQueue: seq<Message>)
    ensures workQueue == Select(Numbered(entries), true)
    ensures outputQueue == Select(Numbered(entries), false) + [EndMarker(|entries|)]
  {
    var order := 0;
    workQueue, outputQueue := [], [];
    while order < |entries|
      invariant order <= |entries|
      invariant workQueue == Select(Numbered(entries[..order]), true)
      invariant outputQueue == Select(Numbered(entries[..order]), false)
    {
      var zinfo := entries[order];
      var isTarget := IsTarget(zinfo.name);
      NumberedStep(entries, order);
      SelectSnoc(Numbered(entries[..order]), Message(Some(order), Some(zinfo)), true);
      SelectSnoc(Numbered(entries[..order]), Message(Some(order), Some(zinfo)), false);
      if isTarget {
        workQueue := workQueue + [Message(Some(order), Some(zinfo))];
      } else {
        outputQueue := outputQueue + [Message(Some(order), Some(zinfo))];
      }
      order := order + 1;
    }
    assert entries[..order] == entries;
    outputQueue := outputQueue + [Message(Some(order), None)];
  }

  /** Both queues `input_worker` fills carry their items in ascending order, the end marker last. */
  lemma InputQueuesAscending(entries: seq<Entry>)
    ensures Ascending(Select(Numbered(entries), true))
    ensures Ascending(Select(Numbered(entries), false) + [EndMarker(|entries|)])
  {
    SelectAscending(Numbered(entries), true);
    SelectAscending(Numbered(entries), false);
    var r := Select(Numbered(entries), false);
    forall i | 0 <= i < |r|
      ensures r[i].order.Some? && r[i].order.value < |entries|
    {
      SelectMembers(Numbered(entries), false, r[i]);
    }
  }

  /** What a worker does with one item: the content becomes `add_wbr` of it. */
  function Transform(m: Message, predict: seq<nat> -> seq<bool>): Message
    requires SameLength(predict)
  {
    match m.entry
    case None => m
    case Some(e) => Message(m.order, Some(Entry(e.name, WithBreaks(e.content, predict))))
  }

  /** A worker returns an item without Thai text as it received it. */
  lemma TransformNoThai(m: Message, predict: seq<nat> -> seq<bool>)
    requires SameLength(predict)
    requires m.entry.Some? ==> forall i :: 0 <= i < |m.entry.value.content| ==> !Labels.IsThai(m.entry.value.content[i])
    ensures Transform(m, predict) == m
  {
    if m.entry.Some? {
      NoThaiUnchanged(m.entry.value.content, predict);
    }
  }

  function TransformAll(ms: seq<Message>, predict: seq<nat> -> seq<bool>): seq<Message>
    requires SameLength(predict)
  {
    seq(|ms|, i requires 0 <= i < |ms| => Transform(ms[i], predict))
  }

  /** The entries the output container should receive: targets transformed, the rest as read. */
  function Processed(entries: seq<Entry>, predict: seq<nat> -> seq<bool>): seq<Entry>
    requires SameLength(predict)
  {
    seq(|entries|, i requires 0 <= i < |entries| =>
      if IsTarget(entries[i].name) then Entry(entries[i].name, WithBreaks(entries[i].content, predict)) else entries[i])
  }

  /** What the sink stores under key `k` when the expected output is `expected`. */
  function ExpectedAt(expected: seq<Entry>, k: nat): Option<Entry>
  {
    if k < |expected| then Some(expected[k]) else None
  }

  ghost predicate ArrivedOrder(msgs: seq<Message>, k: nat)
  {
    exists j :: 0 <= j < |msgs| && msgs[j].order == Some(k)
  }

  /**
   * The messages reaching the sink in some arrival order: every one carries an order up
   * to the count and the payload expected there, and every order 0..n (n the end marker)
   * arrives at least once.
   */
  ghost predicate Arrival(msgs: seq<Message>, expected: seq<Entry>)
  {
    && (forall j :: 0 <= j < |msgs| ==>
          msgs[j].order.Some? && msgs[j].order.value <= |expected|
          && msgs[j].entry == ExpectedAt(expected, msgs[j].order.value))
    && (forall k :: 0 <= k <= |expected| ==> ArrivedOrder(msgs, k))
  }

  /** The messages that reach the sink: the transformed work items and the output queue. */
  ghost predicate Queued(entries: seq<Entry>, predict: seq<nat> -> seq<bool>, m: Message)
    requires SameLength(predict)
  {
    m in TransformAll(Select(Numbered(entries), true), predict)
    || m in Select(Numbered(entries), false) + [EndMarker(|entries|)]
  }

  /** Each message reaching the sink carries an order up to the count and the entry expected there. */
  lemma QueuedPayload(entries: seq<Entry>, predict: seq<nat> -> seq<bool>, m: Message)
    requires SameLength(predict) && Queued(entries, predict, m)
    ensures m.order.Some? && m.order.value <= |entries|
    ensures m.entry == ExpectedAt(Processed(entries, predict), m.order.value)
  {
    var work := Select(Numbered(entries), true);
    var direct := Select(Numbered(entries), false);
    if m in TransformAll(work, predict) {
      var w :| 0 <= w < |work| && TransformAll(work, predict)[w] == m;
      WorkPayload(entries, predict, work[w]);
    } else if m in direct {
      DirectPayload(entries, predict, m);
    } else {
      assert m == EndMarker(|entries|);
    }
  }

  /** A numbered message is entry i of the listing with order number i. */
  lemma NumberedIndex(entries: seq<Entry>, n: Message) returns (i: nat)
    requires n in Numbered(entries)
    ensures i < |entries| && n == Message(Some(i), Some(entries[i]))
  {
    i :| 0 <= i < |Numbered(entries)| && Numbered(entries)[i] == n;
  }

  /** A work item, once transformed, carries the entry expected at its order. */
  lemma WorkPayload(entries: seq<Entry>, predict: seq<nat> -> seq<bool>, n: Message)
    requires SameLength(predict) && n in Select(Numbered(entries), true)
    ensures n.order.Some? && n.order.value < |entries|
    ensures Transform(n, predict).entry == ExpectedAt(Processed(entries, predict), n.order.value)
  {
    SelectMembers(Numbered(entries), true, n);
    var i := NumberedIndex(entries, n);
    assert IsTarget(entries[i].name);
    assert Processed(entries, predict)[i] == Entry(entries[i].name, WithBreaks(entries[i].content, predict));
  }

  /** An item of the output queue carries the entry expected at its order, unchanged. */
  lemma DirectPayload(entries: seq<Entry>, predict: seq<nat> -> seq<bool>, n: Message)
    requires SameLength(predict) && n in Select(Numbered(entries), false)
    ensures n.order.Some? && n.order.value < |entries|
    ensures n.entry == ExpectedAt(Processed(entries, predict), n.order.value)
  {
    SelectMembers(Numbered(entries), false, n);
    var i := NumberedIndex(entries, n);
    assert !IsTarget(entries[i].name);
    assert Processed(entries, predict)[i] == entries[i];
  }

  /** Every order from 0 to the count reaches the sink. */
  lemma QueuedOrder(entries: seq<Entry>, predict: seq<nat> -> seq<bool>, k: nat) returns (m: Message)
    requires SameLength(predict) && k <= |entries|
    ensures Queued(entries, predict, m) && m.order == Some(k)
  {
    var work := Select(Numbered(entries), true);
    var direct := Select(Numbered(entries), false);
    if k == |entries| {
      m := EndMarker(k);
      assert m in direct + [EndMarker(|entries|)];
    } else {
      var n := Numbered(entries)[k];
      if IsTarget(entries[k].name) {
        SelectMembers(Numbered(entries), true, n);
        var w :| 0 <= w < |work| && work[w] == n;
        m := TransformAll(work, predict)[w];
      } else {
        SelectMembers(Numbered(entries), false, n);
        m := n;
        assert m in direct + [EndMarker(|entries|)];
      }
    }
  }

  /**
   * Whatever order the workers finish in, the messages the sink receives (the output
   * queue plus the transformed work items) form an arrival of the processed entries.
   */
  lemma PipelineArrival(entries: seq<Entry>, predict: seq<nat> -> seq<bool>, msgs: seq<Message>)
    requires SameLength(predict)
    requires forall m :: m in msgs <==> Queued(entries, predict, m)
    ensures Arrival(msgs, Processed(entries, predict))
  {
    var expected := Processed(entries, predict);
    forall j | 0 <= j < |msgs|
      ensures msgs[j].order.Some? && msgs[j].order.value <= |expected|
      ensures msgs[j].entry == ExpectedAt(expected, msgs[j].order.value)
    {
      QueuedPayload(entries, predict, msgs[j]);
    }
    forall k | 0 <= k <= |expected|
      ensures ArrivedOrder(msgs, k)
    {
      var m := QueuedOrder(entries, predict, k);
      var j :| 0 <= j < |msgs| && msgs[j] == m;
    }
  }

  /** The state of `output_worker`: the `reorder` dict, the `cur` cursor and what was written. */
  class ReorderSink {
    var reorder: map<nat, Option<Entry>>
    var cur: nat
    var written: seq<Entry>
    var done: bool

    /** `cur` counts the entries written, and no key below it was ever removed. */
    ghost predicate Valid()
      reads this
    {
      |written| == cur && forall k :: 0 <= k < cur ==> k in reorder
    }

    constructor ()
      ensures Valid() && reorder == map[] && cur == 0 && written == [] && !done
    {
      reorder := map[];
      cur := 0;
      written := [];
      done := false;
    }

    /**
     * One message from the output queue: an abort stops at once; otherwise the payload is
     * stored under its order and every contiguous entry from `cur` on is written, stopping
     * at the end marker.
     */
    method Deliver(m: Message)
      requires Valid() && !done
      modifies this
      ensures Valid()
      ensures m.order.None? ==> done && reorder == old(reorder) && cur == old(cur) && written == old(written)
      ensures m.order.Some? ==> reorder == old(reorder)[m.order.value := m.entry]
      ensures old(reorder).Keys <= reorder.Keys
      ensures old(cur) <= cur && written[..old(cur)] == old(written)
      ensures forall k :: old(cur) <= k < cur ==> k in reorder && reorder[k].Some? && written[k] == reorder[k].value
      ensures m.order.Some? ==> if done then cur in reorder && reorder[cur].None? else cur !in reorder
    {
      if m.order.None? {
        done := true;
        return;
      }
      reorder := reorder[m.order.value := m.entry];
      while cur in reorder
        invariant Valid() && !done
        invariant reorder == old(reorder)[m.order.value := m.entry]
        invariant old(cur) <= cur && written[..old(cur)] == old(written)
        invariant forall k :: old(cur) <= k < cur ==> k in reorder && reorder[k].Some? && written[k] == reorder[k].value
        decreases set k | k in reorder && cur <= k
      {
        var e := reorder[cur];
        if e.None? {
          done := true;
          return;
        }
        ghost var pending := set k | k in reorder && cur <= k;
        written := written + [e.value];
        cur := cur + 1;
        assert cur - 1 in pending;
        assert (set k | k in reorder && cur <= k) < pending;
      }
    }
  }

  /**
   * `output_worker` fed the messages `msgs` one by one until it stops. An abort stops it
   * at once; for any arrival order of the items and the end marker it writes exactly the
   * expected entries, each once, in ascending order, and stops.
   */
  method OutputWorker(msgs: seq<Message>, ghost expected: seq<Entry>) returns (written: seq<Entry>, consumed: nat, stopped: bool)
    ensures consumed <= |msgs|
    ensures !stopped ==> consumed == |msgs|
    ensures forall j :: 0 <= j < |msgs| && msgs[j].order.None? ==> stopped && consumed <= j + 1
    ensures Arrival(msgs, expected) ==> stopped && written == expected
  {
    var sink := new ReorderSink();
    consumed := 0;
    while consumed < |msgs| && !sink.done
      invariant consumed <= |msgs|
      invariant sink.Valid()
      invariant forall j :: 0 <= j && j + 1 < consumed ==> msgs[j].order.Some?
      invariant !sink.done && consumed > 0 ==> msgs[consumed - 1].order.Some?
      invariant !sink.done ==> sink.cur !in sink.reorder
      invariant forall j :: 0 <= j < consumed && msgs[j].order.Some? ==> msgs[j].order.value in sink.reorder
      invariant Arrival(msgs, expected) ==> forall k :: k in sink.reorder ==> sink.reorder[k] == ExpectedAt(expected, k)
      invariant Arrival(msgs, expected) ==> sink.cur <= |expected| && sink.written == expected[..sink.cur]
      invariant Arrival(msgs, expected) && sink.done ==> sink.cur == |expected|
    {
      ghost var cur0, written0 := sink.cur, sink.written;
      sink.Deliver(msgs[consumed]);
      if Arrival(msgs, expected) {
        forall k | 0 <= k < sink.cur
          ensures k < |expected| && sink.written[k] == expected[k]
        {
          if k < cur0 {
            assert sink.written[k] == sink.written[..cur0][k] == written0[k];
          } else {
            assert sink.reorder[k] == ExpectedAt(expected, k);
          }
        }
        assert sink.cur <= |expected| by {
          if sink.cur > cur0 {
            assert sink.cur - 1 in sink.reorder && sink.reorder[sink.cur - 1].Some?;
            assert sink.reorder[sink.cur - 1] == ExpectedAt(expected, sink.cur - 1);
          }
        }
        assert sink.written == expected[..sink.cur];
      }
      consumed := consumed + 1;
    }
    assert Arrival(msgs, expected) && consumed == |msgs| ==> sink.cur in sink.reorder by {
      if Arrival(msgs, expected) && consumed == |msgs| {
        assert ArrivedOrder(msgs, sink.cur);
        var j :| 0 <= j < |msgs| && msgs[j].order == Some(sink.cur);
      }
    }
    written, stopped := sink.written, sink.done;
  }
}
