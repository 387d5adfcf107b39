/** Ccorrectit: correcting the coordinates that a connection has received. */
module CorrectWorker {
  import opened Common
  import opened OffsetKeys
  import opened OffsetSlots
  import opened OffsetIndex
  import opened OffsetLoader
  import opened RequestParser
  import RequestFeeds
  import RequestPrint
  import RequestReads
  import RequestTrips

  /** Without an offset for the longitude the point that is stored was never set. */
  method CorrectGps(client: Client, db: Cdbdo, atof: string -> real) returns (c: Correction)
    requires db.Valid()
    modifies client`xgps, client`ygps, client`status
    ensures c == Correct(old(db.View()), client.xbaidu, client.ybaidu, atof)
    ensures c.Corrected? ==> c.gps == Point(client.xgps, client.ygps)
    ensures var idx, y, x := old(db.View()), ToKey(client.ybaidu), ToKey(client.xbaidu);
            && (y.Ok? && y.key !in idx ==>
                  client.xgps == atof(client.xbaidu) && client.ygps == atof(client.ybaidu))
            && (y.Ok? && y.key in idx && x.Ok? && LookupOf(idx[y.key], x.key).Found? ==>
                  var o := LookupOf(idx[y.key], x.key).off;
                  client.xgps == atof(client.xbaidu) - o.dx && client.ygps == atof(client.ybaidu) - o.dy)
    ensures client.status == if c.Crashed? then old(client.status) else 2
  {
    var baidu := Point(atof(client.xbaidu), atof(client.ybaidu));
    var y1 := Chang2Uint(client.ybaidu);
    if y1.Overrun? {
      return Crashed;
    }
    var gps := baidu;
    c := Corrected(baidu);
    if y1.key in db.mapinfo {
      var x1 := Chang2Uint(client.xbaidu);
      if x1.Overrun? {
        return Crashed;
      }
      var found;
      found, gps := db.mapinfo[y1.key].GetGpsxy(baidu, x1.key);
      if found.OutOfRange? {
        return Crashed;
      }
      c := if found.Unset? then NotSet else Corrected(gps);
    }
    client.xgps, client.ygps, client.status := gps.dx, gps.dy, 2;
  }

  /** From the wire to the corrected point: what a connection holds after a request received in pieces
      is corrected, after the table was loaded in pages, by the table's entry for those two strings;
      and it holds the printed position exactly when the last receive finds each value. */
  lemma RequestIsCorrectedByTable(table: seq<Row>, max: nat, count: nat, rows: seq<Row>,
                                  atof: string -> real, c: RequestText.Conn, junk: seq<string>, first: string,
                                  rest: seq<string>, text: string, sp: RequestPrint.Spelling,
                                  order: seq<RequestPrint.Tag>, f: RequestText.Fields, tail: string)
      returns (d: RequestText.Conn, u: string, chunk: string)
    requires count > 0 && rows == RowsRead(table, 0, max, count)
    requires AllWhole(rows) && Loadable(Items(rows, atof))
    requires RequestFeeds.InChunks(c, junk, first, rest, text)
    requires RequestReads.Message(text[RequestChunks.KeywordIn(text)..], "", sp, order, f, tail)
    ensures var t := text[RequestChunks.KeywordIn(text)..];
            var idx, r := LoadPages(map[], table, 0, max, count, atof), RequestFeeds.Feed(c, junk + [first] + rest);
            && idx.Some? && RequestFeeds.LastReceive(c, junk + [first] + rest, t, d, u, chunk)
            && (RequestFeeds.Served(r, f, c.notified)
                <==> RequestReads.AllOwn(t, "", order, f, tail, RequestChunks.BufferFrom(d, u, chunk), c.fields))
            && (r.Alive? ==>
                  var x, y := r.conn.fields.x, r.conn.fields.y;
                  ByTable(Items(rows, atof), x, y, Point(atof(x), atof(y)), Correct(idx.value, x, y, atof)))
  {
    d, u, chunk := RequestTrips.PrintThenReceive(c, junk, first, rest, text, sp, order, f, tail);
    var r := RequestFeeds.Feed(c, junk + [first] + rest);
    LoadedIndexIsTable(table, max, count, rows, atof);
    if r.Alive? {
      LoadThenCorrect(table, max, count, rows, r.conn.fields.x, r.conn.fields.y, atof);
    }
  }
}
