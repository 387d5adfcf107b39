/** The worker's correction inside the connection protocol: with the index that getdb has loaded, every
    point that any run forwards is the one the offset table gives. */
module ClientCorrections {
  import opened Common
  import opened OffsetKeys
  import opened OffsetSlots
  import opened OffsetIndex
  import opened OffsetColumns
  import opened ClientProtocol
  import opened ClientRuns

  /** What correctgps_worker may leave in a client with these two strings: the corrected point, or any
      point when the point is never set. A correction that crashes leaves nothing, so a worker cannot
      serve such a client. */
  predicate Corrects(idx: Index, atof: string -> real, x: string, y: string, gps: Point)
    requires SizedIndex(idx)
  {
    match Correct(idx, x, y, atof)
    case Corrected(p) => gps == p
    case NotSet => true
    case Crashed => false
  }

  function TableEnv(maxClients: nat, idx: Index, atof: string -> real): Env
    requires SizedIndex(idx)
  {
    Env(maxClients, (x, y, gps) => Corrects(idx, atof, x, y, gps))
  }

  /** The forwarded point is the table's correction of the forwarded strings, or was never set, which is
      when the table has no offset for them. */
  ghost predicate ForwardedByTable(items: seq<Item>, f: Forward, atof: string -> real) {
    var baidu := Point(atof(f.x), atof(f.y));
    ByTable(items, f.x, f.y, baidu, Corrected(f.gps)) || ByTable(items, f.x, f.y, baidu, NotSet)
  }

  lemma CorrectsByTable(idx: Index, items: seq<Item>, f: Forward, atof: string -> real)
    requires SizedIndex(idx) && IndexInv(idx, items, |items|) && Corrects(idx, atof, f.x, f.y, f.gps)
    ensures ForwardedByTable(items, f, atof)
  {
    CorrectionFollowsTable(idx, items, f.x, f.y, atof);
  }

  /** In every run of event loop and workers over the loaded table, every forward carries the serial and
      coordinates of the latest complete request to that same client, and the table's correction of them. */
  lemma EveryForwardIsByTable(table: seq<Row>, max: nat, count: nat, rows: seq<Row>, atof: string -> real,
                              idx: Index, maxClients: nat, run: seq<State>, n: nat)
    requires count > 0 && rows == RowsRead(table, 0, max, count)
    requires AllWhole(rows) && Loadable(Items(rows, atof))
    requires LoadPages(map[], table, 0, max, count, atof) == Some(idx)
    requires IsRun(TableEnv(maxClients, idx, atof), run) && n < |run|
    ensures forall f | f in run[n].forwards ::
              && Took(run[n].popped, f.taken, f.w, f.fd)
              && Latest(run[n].requests, f.seen, f.id, f.fd, f.serial, f.x, f.y)
              && ForwardedByTable(Items(rows, atof), f, atof)
  {
    var env := TableEnv(maxClients, idx, atof);
    LoadedIndexIsTable(table, max, count, rows, atof);
    EveryRunForwardsParsedRequests(env, run, n);
    forall f | f in run[n].forwards
      ensures ForwardedByTable(Items(rows, atof), f, atof)
    {
      assert env.corrects(f.x, f.y, f.gps);
      CorrectsByTable(idx, Items(rows, atof), f, atof);
    }
  }

  /** And when the forwarded strings have the two keys of a row within reach, the forwarded point is that
      row's two offsets away from them. */
  lemma EveryForwardIsByRow(table: seq<Row>, max: nat, count: nat, rows: seq<Row>, atof: string -> real,
                            idx: Index, maxClients: nat, run: seq<State>, n: nat, f: Forward, i: nat, g: nat)
    requires LoadableTable(table, max, count, rows) && LoadPages(map[], table, 0, max, count, atof) == Some(idx)
    requires IsRun(TableEnv(maxClients, idx, atof), run) && n < |run| && f in run[n].forwards
    requires i < |rows| && FirstRow(rows, ToKey(rows[i].lat.value).key, g)
    requires ToKey(f.y) == ToKey(rows[i].lat.value) && ToKey(f.x) == ToKey(rows[i].lng.value)
    ensures ToKey(rows[i].lng.value).key - ToKey(rows[g].lng.value).key < ARRAY_COUNT
    ensures f.gps.dx == atof(f.x) - atof(rows[i].dx.value) && f.gps.dy == atof(f.y) - atof(rows[i].dy.value)
  {
    var env := TableEnv(maxClients, idx, atof);
    EveryRunForwardsParsedRequests(env, run, n);
    assert env.corrects(f.x, f.y, f.gps);
    RowCorrects(table, max, count, rows, i, g, f.x, f.y, atof);
  }

  /** A point that the correction never sets is forwarded with whatever it holds. */
  lemma UnsetIsForwarded(idx: Index, atof: string -> real, maxClients: nat, gps: Point) returns (run: seq<State>)
    requires SizedIndex(idx) && maxClients > 0 && Correct(idx, "1.00", "2.00", atof).NotSet?
    ensures IsRun(TableEnv(maxClients, idx, atof), run)
    ensures run[|run| - 1].forwards == [Forward(0, 5, 0, "s", "1.00", "2.00", gps, 1, 1)]
  {
    run := ServeOne(TableEnv(maxClients, idx, atof), gps);
  }
}
