/**
  The serial-line hub of `MainActivity`: node ids are single characters
  learnt from the reply to a discovery command, every node is polled by
  writing its id, and the `$`-separated reply is matched to the nodes in
  descending id order. The serial streams, the sleeps and the timer thread
  are replaced by the values they deliver.
 */
module SerialHub {
  import opened Common
  import opened Text
  import opened TreeMap

  /** `POLL_INTERVAL_MS`. */
  const PollIntervalMs: int := 6000

  /** The command byte that asks the connected nodes for their ids. */
  const DiscoverCommand: char := 'g'

  /** What the hub keeps between timer ticks: the node map, the polling
      timer, every byte written to the serial port so far, and the text on
      the screen. */
  datatype Hub = Hub(nodeData: NodeData, polling: Timer, sent: seq<Octet>, display: string)

  ghost predicate Valid(h: Hub) {
    Sorted(h.nodeData)
  }

  /** `OutputStream.write(int)` on a `char`: only the low eight bits of the
      character reach the wire. */
  function WireByte(c: char): (b: Octet)
    ensures (b - c as int) % 256 == 0
    ensures c as int < 256 ==> b == c as int
  {
    c as int % 256
  }

  function WireBytes(cs: seq<char>): (bs: seq<Octet>)
    ensures |bs| == |cs|
    ensures forall i :: 0 <= i < |cs| ==> bs[i] == WireByte(cs[i])
  {
    seq(|cs|, i requires 0 <= i < |cs| => WireByte(cs[i]))
  }

  // ---------------------------------------------------------------------
  // Discovery
  // ---------------------------------------------------------------------

  /** The characters of a discovery reply, as a set of node ids. */
  function CharSet(s: string): set<char> {
    set c | c in s
  }

  /** The loop `for (char c : reply) nodeData.put(c, "")`. */
  function Register(t: NodeData, s: string): (r: NodeData)
    requires Sorted(t)
    ensures Sorted(r)
    ensures KeySet(r) == KeySet(t) + CharSet(s)
    decreases |s|
  {
    if |s| == 0 then t
    else
      var r := Register(Put(t, s[0], ""), s[1..]);
      assert CharSet(s) == {s[0]} + CharSet(s[1..]) by {
        assert forall c :: c in s[1..] ==> c in s;
        assert forall i :: 0 < i < |s| ==> s[i] == s[1..][i - 1];
      }
      r
  }

  /** Every node registered by discovery starts with an empty value. */
  lemma {:induction false} RegisterValues(t: NodeData, s: string)
    requires Sorted(t)
    requires forall e :: e in t ==> e.value == ""
    ensures forall e :: e in Register(t, s) ==> e.value == ""
    decreases |s|
  {
    if |s| > 0 {
      PutEntries(t, s[0], "");
      RegisterValues(Put(t, s[0], ""), s[1..]);
    }
  }

  /** How far `discoverNodes` got before an exception, if any: the write of
      the command or the one-second sleep after it can throw, and both are
      caught in the method itself. */
  datatype DiscoverStep = Done | WriteFault | SleepFault

  /** `discoverNodes()`: stop polling, forget every node, send the command,
      register one node per character of the reply, and start polling again
      at once with the fixed period, whatever happened in between. */
  function DiscoverNodes(h: Hub, step: DiscoverStep, reply: string): (r: Hub)
    ensures Valid(r)
    ensures r.polling == Armed(0, PollIntervalMs)
    ensures r.display == h.display
    ensures r.sent == h.sent + (if step == WriteFault then [] else [WireByte(DiscoverCommand)])
    ensures step == Done ==> KeySet(r.nodeData) == CharSet(reply)
    ensures step != Done ==> r.nodeData == []
  {
    var stopped := h.(polling := Cancel(h.polling), nodeData := []);
    match step
    case WriteFault => stopped.(polling := Armed(0, PollIntervalMs))
    case SleepFault =>
      stopped.(sent := h.sent + [WireByte(DiscoverCommand)], polling := Armed(0, PollIntervalMs))
    case Done =>
      stopped.(sent := h.sent + [WireByte(DiscoverCommand)],
               nodeData := Register([], reply),
               polling := Armed(0, PollIntervalMs))
  }

  /** After a completed discovery there is one node per distinct reply
      character, however often it repeats, and each node's value is "". */
  lemma DiscoveredNodes(h: Hub, reply: string)
    ensures |DiscoverNodes(h, Done, reply).nodeData| == |CharSet(reply)|
    ensures forall e :: e in DiscoverNodes(h, Done, reply).nodeData ==> e.value == ""
  {
    var t := DiscoverNodes(h, Done, reply).nodeData;
    SortedSize(t);
    RegisterValues([], reply);
  }

  /** A reply that names the same node three times registers it once. */
  lemma RepeatedId(h: Hub)
    ensures DiscoverNodes(h, Done, "aba").nodeData == [Entry('a', ""), Entry('b', "")]
  {
    var t1 := Put([], 'a', "");
    assert t1 == [Entry('a', "")];
    var t2 := Put(t1, 'b', "");
    assert t2 == [Entry('a', "")] + Put([], 'b', "");
    assert Put(t2, 'a', "") == [Entry('a', "")] + t2[1..];
    assert "aba"[1..] == "ba" && "ba"[1..] == "a" && "a"[1..] == "";
  }

  /** `onCreate`: an empty map and an unscheduled timer, then discovery. */
  function Create(step: DiscoverStep, reply: string): (r: Hub)
    ensures Valid(r)
    ensures r.polling == Armed(0, PollIntervalMs)
    ensures r.display == "UI Initialized"
    ensures |r.sent| <= 1
  {
    DiscoverNodes(Hub([], Unscheduled, [], "UI Initialized"), step, reply)
  }

  // ---------------------------------------------------------------------
  // Polling
  // ---------------------------------------------------------------------

  /** The result of the assignment loop: the map it leaves, and whether the
      loop's own size guard stopped it early. */
  datatype Assigned = Assigned(table: NodeData, aborted: bool)

  /** The loop over the split reply from field `i` on: unless the guard
      `i >= nodeData.size()` stops it, field `i` is put under the `i`-th
      entry of the descending key set, which is recomputed every round. */
  function AssignFrom(t: NodeData, fields: seq<string>, i: nat): (r: Assigned)
    requires Sorted(t)
    ensures Sorted(r.table)
    ensures KeySet(r.table) == KeySet(t) && |r.table| == |t|
    decreases |fields| - i
  {
    if i >= |fields| then Assigned(t, false)
    else if i >= |t| then Assigned(t, true)
    else
      var k := Descending(t)[i];
      assert k in KeySet(t);
      AssignFrom(Put(t, k, fields[i]), fields, i + 1)
  }

  /** The map after a matched reply, defined independently of the loop:
      the `j`-th entry in ascending order keeps its key and takes the field
      counted from the end of the reply. */
  function Matched(t: NodeData, fields: seq<string>): (m: NodeData)
    requires |fields| == |t|
  {
    seq(|t|, j requires 0 <= j < |t| => Entry(t[j].key, fields[|t| - 1 - j]))
  }

  /** The map after the loop has stored the fields before `i`. */
  function Partial(t: NodeData, fields: seq<string>, i: int): NodeData
    requires |fields| == |t|
  {
    seq(|t|, j requires 0 <= j < |t| =>
      if |t| - 1 - j < i then Entry(t[j].key, fields[|t| - 1 - j]) else t[j])
  }

  lemma SameKeysSorted(t: NodeData, s: NodeData)
    requires Sorted(t) && |s| == |t|
    requires forall j :: 0 <= j < |t| ==> s[j].key == t[j].key
    ensures Sorted(s)
  {
  }

  /** One round of the loop turns the partial map for `i` into the one for
      `i + 1`. */
  lemma AssignStep(t: NodeData, fields: seq<string>, i: nat)
    requires Sorted(t) && |fields| == |t| && i < |t|
    ensures Sorted(Partial(t, fields, i))
    ensures Put(Partial(t, fields, i), Descending(Partial(t, fields, i))[i], fields[i])
            == Partial(t, fields, i + 1)
  {
    var p := Partial(t, fields, i);
    SameKeysSorted(t, p);
    var m := |t| - 1 - i;
    assert Descending(p)[i] == p[m].key;
    PutAt(p, m, fields[i]);
    PartialStep(t, fields, i);
  }

  /** Assigning field `i` rewrites the entry of the i-th largest key. */
  lemma PartialStep(t: NodeData, fields: seq<string>, i: nat)
    requires |fields| == |t| && i < |t|
    ensures var p, m := Partial(t, fields, i), |t| - 1 - i;
      p[m := Entry(p[m].key, fields[i])] == Partial(t, fields, i + 1)
  {
    var p, m := Partial(t, fields, i), |t| - 1 - i;
    var q := Partial(t, fields, i + 1);
    forall j | 0 <= j < |t| ensures p[m := Entry(p[m].key, fields[i])][j] == q[j] {
      if j == m {
        assert q[j] == Entry(t[j].key, fields[i]);
      } else {
        assert q[j] == p[j];
      }
    }
  }

  lemma {:induction false} AssignFromPartial(t: NodeData, fields: seq<string>, i: nat)
    requires Sorted(t) && |fields| == |t| && i <= |t|
    ensures Sorted(Partial(t, fields, i))
    ensures AssignFrom(Partial(t, fields, i), fields, i) == Assigned(Matched(t, fields), false)
    decreases |t| - i
  {
    var p := Partial(t, fields, i);
    SameKeysSorted(t, p);
    if i < |t| {
      AssignStep(t, fields, i);
      AssignFromPartial(t, fields, i + 1);
    } else {
      assert p == Matched(t, fields);
    }
  }

  /** When the reply has exactly one field per node, the loop runs to the
      end without its guard firing and leaves the map `Matched` describes. */
  lemma AssignMatched(t: NodeData, fields: seq<string>)
    requires Sorted(t) && |fields| == |t|
    ensures AssignFrom(t, fields, 0) == Assigned(Matched(t, fields), false)
  {
    assert Partial(t, fields, 0) == t;
    AssignFromPartial(t, fields, 0);
  }

  /** The guard inside the loop can never fire once the reply has exactly
      one field per node. */
  lemma GuardNeverFires(t: NodeData, fields: seq<string>)
    requires Sorted(t) && |fields| == |t|
    ensures !AssignFrom(t, fields, 0).aborted
  {
    AssignMatched(t, fields);
  }

  /** Field `i` is stored under the `i`-th largest key; the keys stay the
      same and in the same order. */
  lemma FieldUnderKey(t: NodeData, fields: seq<string>)
    requires Sorted(t) && |fields| == |t|
    ensures Keys(AssignFrom(t, fields, 0).table) == Keys(t)
    ensures forall i :: 0 <= i < |t| ==>
      Get(AssignFrom(t, fields, 0).table, Descending(t)[i]) == Some(fields[i])
  {
    AssignMatched(t, fields);
    forall i | 0 <= i < |t|
      ensures Get(Matched(t, fields), Descending(t)[i]) == Some(fields[i])
    {
      MatchedGet(t, fields, i);
    }
  }

  lemma MatchedGet(t: NodeData, fields: seq<string>, i: int)
    requires Sorted(t) && |fields| == |t| && 0 <= i < |t|
    ensures Get(Matched(t, fields), Descending(t)[i]) == Some(fields[i])
  {
    var m := Matched(t, fields);
    SameKeysSorted(t, m);
    var j := |t| - 1 - i;
    assert m[j] == Entry(Descending(t)[i], fields[i]);
    GetAt(m, j);
  }

  /** How far the sending loop got: `Some(n)` when the write of the id after
      the first `n` ids, or the sleep after the `n`-th, threw; the exception
      skips the rest of `pollNodes`. */
  type PollFault = Option<nat>

  /** `pollNodes()`: write every id, largest first; split the reply on `$`;
      if the number of fields is not the number of nodes, stop; otherwise
      store the fields and redraw the screen. */
  function PollSerial(h: Hub, fault: PollFault, reply: string): (r: Hub)
    requires Valid(h)
    ensures Valid(r)
    ensures r.polling == h.polling
    ensures KeySet(r.nodeData) == KeySet(h.nodeData)
    ensures fault.None? ==> r.sent == h.sent + WireBytes(Descending(h.nodeData))
    ensures fault.Some? ==> r.sent == h.sent + WireBytes(Descending(h.nodeData)[..Min(fault.value, |h.nodeData|)])
    ensures fault.Some? ==> r.nodeData == h.nodeData && r.display == h.display
    ensures fault.None? && |JavaSplit(reply, '$')| != |h.nodeData| ==> r.nodeData == h.nodeData && r.display == h.display
  {
    var ids := Descending(h.nodeData);
    match fault
    case Some(n) => h.(sent := h.sent + WireBytes(ids[..Min(n, |ids|)]))
    case None =>
      var polled := h.(sent := h.sent + WireBytes(ids));
      var fields := JavaSplit(reply, '$');
      if |fields| != |h.nodeData| then polled
      else
        var a := AssignFrom(h.nodeData, fields, 0);
        if a.aborted then polled.(nodeData := a.table)
        else polled.(nodeData := a.table, display := Render(a.table))
  }

  function Min(a: int, b: int): int {
    if a < b then a else b
  }

  /** A reply with one field per node is stored, field `i` under the `i`-th
      largest id, and the screen shows the new map. */
  lemma PollStoresFields(h: Hub, reply: string)
    requires Valid(h) && |JavaSplit(reply, '$')| == |h.nodeData|
    ensures PollSerial(h, None, reply).nodeData == Matched(h.nodeData, JavaSplit(reply, '$'))
    ensures PollSerial(h, None, reply).display == Render(PollSerial(h, None, reply).nodeData)
  {
    AssignMatched(h.nodeData, JavaSplit(reply, '$'));
  }

  /** Every id is written exactly once, in strictly descending order. */
  lemma IdsSentOnce(h: Hub, reply: string)
    requires Valid(h)
    ensures var sent := PollSerial(h, None, reply).sent[|h.sent|..];
      |sent| == |h.nodeData| &&
      forall i :: 0 <= i < |sent| ==> sent[i] == WireByte(Descending(h.nodeData)[i])
    ensures forall i, j :: 0 <= i < j < |h.nodeData| ==> Descending(h.nodeData)[i] > Descending(h.nodeData)[j]
    ensures forall c :: c in KeySet(h.nodeData) <==> c in Descending(h.nodeData)
  {
  }

  /** With one node and nothing to read, `"".split("\\$")` is `[""]`, so the
      node's value becomes the empty string. */
  lemma EmptyReplyOneNode(h: Hub, key: char, value: string)
    requires h.nodeData == [Entry(key, value)]
    ensures PollSerial(h, None, "").nodeData == [Entry(key, "")]
  {
    assert JavaSplit("", '$') == [""];
    PollStoresFields(h, "");
  }

  /** With no nodes, the same empty reply has one field too many, so nothing
      is stored and the screen is not redrawn. */
  lemma EmptyReplyNoNodes(h: Hub)
    requires h.nodeData == []
    ensures PollSerial(h, None, "") == h
  {
    assert JavaSplit("", '$') == [""];
  }

  /** A reply of `$` alone splits into no fields at all. */
  lemma LoneSeparator(h: Hub)
    requires h.nodeData == []
    ensures PollSerial(h, None, "$").display == Render([])
  {
    assert "$"[0] == '$';
    assert RawSplit("$", '$') == ["", ""];
    assert JavaSplit("$", '$') == [];
  }

  // ---------------------------------------------------------------------
  // Rendering
  // ---------------------------------------------------------------------

  /** One line of `processSensorData`, without its newline. */
  function NodeLine(e: Entry): (line: string)
    ensures |line| == 9 + |e.value|
    ensures line[..5] == "node " && line[5] == e.key && line[6..9] == ":  "
    ensures line[9..] == e.value
  {
    "node " + [e.key] + ":  " + e.value
  }

  function NodeLines(t: NodeData): (lines: seq<string>)
    ensures |lines| == |t|
    ensures forall j :: 0 <= j < |t| ==> lines[j] == NodeLine(t[j])
  {
    seq(|t|, j requires 0 <= j < |t| => NodeLine(t[j]))
  }

  /** `processSensorData()`: one newline-terminated line per node, in
      ascending key order. */
  function Render(t: NodeData): (s: string)
    ensures s == "" <==> |t| == 0
    ensures |t| > 0 ==> s[|s| - 1] == '\n'
    ensures |t| > 0 ==> |NodeLine(t[0])| < |s| && s[..|NodeLine(t[0])|] == NodeLine(t[0])
  {
    JoinTerminated(NodeLines(t), '\n')
  }

  /** Splitting the screen text on newlines gives back one line per node,
      in ascending key order, when no key or value holds a newline. */
  lemma RenderSplit(t: NodeData)
    requires forall e :: e in t ==> e.key != '\n' && '\n' !in e.value
    ensures |t| == 0 ==> Render(t) == ""
    ensures |t| > 0 ==> JavaSplit(Render(t), '\n') == NodeLines(t)
  {
    var lines := NodeLines(t);
    forall j | 0 <= j < |lines|
      ensures '\n' !in lines[j] && lines[j] != ""
    {
      assert t[j] in t;
      assert lines[j] == "node " + [t[j].key] + ":  " + t[j].value;
    }
    SplitJoinTerminated(lines, '\n');
  }
}
