/** What the address caches hold while a file is decoded: the addresses of all COPY instructions so far, over all
    windows. */
module VcdAddress {
  import opened Words
  import opened Options
  import opened VcdInteger
  import opened VcdCache
  import opened VcdTable
  import opened VcdVm
  import opened VcdScript

  function AddressOf(i: Inst): seq<Word> {
    if i.Copied? then [i.addr] else []
  }

  /** The addresses that a window's script copies from, in order. */
  function Addresses(ops: seq<Op>): seq<Word>
    decreases |ops|
  {
    if ops == [] then [] else AddressOf(ops[0].first) + AddressOf(ops[0].second) + Addresses(ops[1..])
  }

  /** Those of all windows. */
  function AllAddresses(scripts: seq<seq<Op>>): seq<Word>
    decreases |scripts|
  {
    if scripts == [] then [] else Addresses(scripts[0]) + AllAddresses(scripts[1..])
  }

  lemma {:induction false} UpdateAllJoin(c: Caches, a: seq<Word>, b: seq<Word>)
    requires c.Valid()
    ensures UpdateAll(c, a + b) == UpdateAll(UpdateAll(c, a), b)
    decreases |b|
  {
    hide Updated;
    if b == [] {
      assert a + b == a;
    } else {
      var n := |b| - 1;
      UpdateAllJoin(c, a, b[..n]);
      assert (a + b)[..|a + b| - 1] == a + b[..n];
    }
  }

  lemma ActCaches(source: seq<Byte>, seg: Segment, p: Point, i: Inst)
    requires p.caches.Valid() && Legal(source, seg, p, i)
    ensures Act(source, seg, p, i).caches == UpdateAll(p.caches, AddressOf(i))
  {
    hide Coded, Updated;
    if i.Copied? {
      assert [i.addr][..0] == [];
    }
  }

  lemma OpCaches(source: seq<Byte>, seg: Segment, table: Table, p: Point, op: Op)
    requires table.Valid() && p.caches.Valid() && LegalOp(source, seg, table, p, op)
    ensures ActOp(source, seg, table, p, op).caches
            == UpdateAll(p.caches, AddressOf(op.first) + AddressOf(op.second))
  {
    hide Legal, Act, Stands, AddressOf, UpdateAll;
    ActCaches(source, seg, p, op.first);
    ActCaches(source, seg, Act(source, seg, p, op.first), op.second);
    UpdateAllJoin(p.caches, AddressOf(op.first), AddressOf(op.second));
  }

  lemma {:induction false} OpsCaches(source: seq<Byte>, seg: Segment, table: Table, p: Point, ops: seq<Op>)
    requires table.Valid() && p.caches.Valid() && LegalOps(source, seg, table, p, ops)
    ensures ActOps(source, seg, table, p, ops).caches == UpdateAll(p.caches, Addresses(ops))
    decreases |ops|
  {
    hide LegalOp, ActOp, AddressOf;
    if ops != [] {
      var q := ActOp(source, seg, table, p, ops[0]);
      OpCaches(source, seg, table, p, ops[0]);
      OpsCaches(source, seg, table, q, ops[1..]);
      UpdateAllJoin(p.caches, AddressOf(ops[0].first) + AddressOf(ops[0].second), Addresses(ops[1..]));
    }
  }

  lemma {:induction false} WindowsCaches(source: seq<Byte>, table: Table, total: nat, p: Point, ws: seq<Window>,
                                         scripts: seq<seq<Op>>)
    requires table.Valid() && p.caches.Valid() && CodesWindows(source, table, total, p, ws, scripts)
    ensures ActWindows(source, table, total, p, ws, scripts).caches == UpdateAll(p.caches, AllAddresses(scripts))
    decreases |ws|
  {
    hide LegalOps, ActOps, Addresses, CodeOps;
    if ws != [] {
      OpsCaches(source, SegmentOf(source, total, |p.out|, ws[0]).value, table, p, scripts[0]);
      WindowsCaches(source, table, total, ActWindow(source, table, total, p, ws[0], scripts[0]), ws[1..], scripts[1..]);
      UpdateAllJoin(p.caches, Addresses(scripts[0]), AllAddresses(scripts[1..]));
    }
  }

  /** The machine ends its windows with the caches of all addresses copied from, none forgotten between windows. */
  lemma DecodedCaches(source: seq<Byte>, table: Table, ws: seq<Window>, scripts: seq<seq<Op>>)
    requires table.Valid() && CodesWindows(source, table, TargetSize(ws), Start(table), ws, scripts)
    ensures var zeros := Repeat(0, TargetSize(ws));
            var r := Windows(source, table, ws, Progress(zeros, 0, Initial(table.sNear, table.sSame)));
            && r.Done? && r.value.target[..r.value.here] == r.value.target
            && r.value.caches == UpdateAll(Initial(table.sNear, table.sSame), AllAddresses(scripts))
            && NearHolds(r.value.caches, AllAddresses(scripts)) && SameHolds(r.value.caches, AllAddresses(scripts))
  {
    hide CodesWindows, ActWindows, Windows, UpdateAll, NearHolds, SameHolds, AllAddresses;
    var c := Initial(table.sNear, table.sSame);
    WindowsRead(source, table, Progress(Repeat(0, TargetSize(ws)), 0, c), Start(table), ws, scripts);
    WindowsCaches(source, table, TargetSize(ws), Start(table), ws, scripts);
    CachesHold(table.sNear, table.sSame, AllAddresses(scripts));
  }
}
