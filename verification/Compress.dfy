// The gzip response writer: what it buffers, when it decides whether to
// compress, and that the client gets what a bare writer would have sent.
module Compress {
  import opened Wrappers

  type byte = bv8

  const SNIFF_BUF_SIZE := 8192
  const MIN_COMPRESS_SIZE := 1024
  const STATUS_OK := 200
  const SWITCHING_PROTOCOLS := 101

  // ---- A bare writer ----

  // What a handler does with a response writer. Status 0 is none of net/http's.
  datatype Op = WriteHeader(code: nat) | Write(data: seq<byte>) | Flush | SetHeaders(contentType: string, contentEncoding: string)

  predicate OpOk(op: Op) { op.WriteHeader? ==> op.code != 0 }

  // What is fixed of a response: status 0 stands for none yet, and the first
  // `flushed` bytes of the body are with the client.
  datatype Response = Response(status: nat, body: seq<byte>, flushed: nat)

  const EMPTY := Response(0, [], 0)

  // Informational codes are sent on the side and fix nothing.
  predicate Informational(code: nat) { 100 <= code <= 199 && code != SWITCHING_PROTOCOLS }

  function Fixed(status: nat, code: nat): nat { if status == 0 then code else status }

  // The first status wins; a write or a flush without one fixes 200.
  function Bare(r: Response, op: Op): Response {
    match op
    case WriteHeader(code) => if Informational(code) then r else r.(status := Fixed(r.status, code))
    case Write(data) => r.(status := Fixed(r.status, STATUS_OK), body := r.body + data)
    case Flush => r.(status := Fixed(r.status, STATUS_OK), flushed := |r.body|)
    case SetHeaders(_, _) => r
  }

  function BareAll(ops: seq<Op>): Response {
    if ops == [] then EMPTY else Bare(BareAll(ops[..|ops| - 1]), ops[|ops| - 1])
  }

  // The handler has returned.
  function Finish(r: Response): Response { Bare(r, Flush) }

  // All that a run of writes amounts to.
  function Written(ops: seq<Op>): seq<byte> {
    if ops == [] then []
    else
      var last := ops[|ops| - 1];
      Written(ops[..|ops| - 1]) + if last.Write? then last.data else []
  }

  // Writes and flushes fix 200, status lines other than informational ones
  // their code.
  function Fixes(op: Op): nat {
    match op
    case WriteHeader(code) => if Informational(code) then 0 else code
    case Write(_) => STATUS_OK
    case Flush => STATUS_OK
    case SetHeaders(_, _) => 0
  }

  predicate FixedBy(ops: seq<Op>, i: nat, status: nat)
    requires i < |ops|
  {
    Fixes(ops[i]) == status != 0 && forall j | 0 <= j < i :: Fixes(ops[j]) == 0
  }

  predicate FixesNone(ops: seq<Op>) { forall i | 0 <= i < |ops| :: Fixes(ops[i]) == 0 }

  // A client sees the status of the first operation to fix one, or 200.
  predicate FirstWins(ops: seq<Op>, status: nat) {
    (FixesNone(ops) && status == STATUS_OK) || exists i | 0 <= i < |ops| :: FixedBy(ops, i, status)
  }

  lemma {:induction false} BareStatus(ops: seq<Op>)
    requires forall i | 0 <= i < |ops| :: OpOk(ops[i])
    ensures var s := BareAll(ops).status;
            if s == 0 then FixesNone(ops) else exists i | 0 <= i < |ops| :: FixedBy(ops, i, s)
  {
    if ops != [] {
      var before, last := ops[..|ops| - 1], |ops| - 1;
      BareStatus(before);
      assert forall i | 0 <= i < last :: ops[i] == before[i];
      var s := BareAll(before).status;
      assert BareAll(ops).status == Fixed(s, Fixes(ops[last]));
      if s != 0 {
        var i :| 0 <= i < last && FixedBy(before, i, s);
        assert FixedBy(ops, i, s);
      } else if Fixes(ops[last]) != 0 {
        assert FixedBy(ops, last, Fixes(ops[last]));
      }
    }
  }

  lemma {:induction false} BareBody(ops: seq<Op>)
    ensures BareAll(ops).body == Written(ops)
  {
    if ops != [] { BareBody(ops[..|ops| - 1]); }
  }

  // ---- When the decision is made, and which ----

  // The operation at `i` ends the sniffing, if nothing has before: a flush, or
  // the write that no longer fits the buffer.
  predicate Forces(ops: seq<Op>, i: nat)
    requires i < |ops|
  {
    ops[i].Flush? || |Written(ops[..i + 1])| > SNIFF_BUF_SIZE
  }

  // The operation that decides, or the handler's return.
  function Moment(ops: seq<Op>): (i: nat)
    ensures i <= |ops|
  {
    if ops == [] then 0
    else
      var last := |ops| - 1;
      var i := Moment(ops[..last]);
      if i < last || Forces(ops, last) then i else |ops|
  }

  // The header fields as the handler has set them.
  function TypeOf(ops: seq<Op>, given: string): string {
    if ops == [] then given
    else var last := |ops| - 1; if ops[last].SetHeaders? then ops[last].contentType else TypeOf(ops[..last], given)
  }

  function EncodingOf(ops: seq<Op>, given: string): string {
    if ops == [] then given
    else var last := |ops| - 1; if ops[last].SetHeaders? then ops[last].contentEncoding else EncodingOf(ops[..last], given)
  }

  // At that moment 1024 bytes have been written, of a media type that is not
  // compressed already, and no content encoding is set.
  predicate Compresses(ops: seq<Op>, compressed: string -> bool, contentType: string, contentEncoding: string) {
    var i := Moment(ops);
    && !compressed(TypeOf(ops[..i], contentType)) && EncodingOf(ops[..i], contentEncoding) == ""
    && |Written(ops[..if i < |ops| then i + 1 else i])| >= MIN_COMPRESS_SIZE
  }

  // The moment is that of the first operation that ends the sniffing.
  lemma {:induction false} MomentMeans(ops: seq<Op>)
    ensures Moment(ops) < |ops| ==> Forces(ops, Moment(ops))
    ensures forall j | 0 <= j < Moment(ops) :: !Forces(ops, j)
  {
    if ops != [] {
      var before := ops[..|ops| - 1];
      MomentMeans(before);
      forall j | 0 <= j < |before| ensures Forces(ops, j) == Forces(before, j) {
        assert ops[..j + 1] == before[..j + 1];
      }
    }
  }

  // Once it is there, nothing that follows changes the decision.
  lemma DecisionStays(ops: seq<Op>, op: Op, compressed: string -> bool, contentType: string, contentEncoding: string)
    requires Moment(ops) < |ops|
    ensures var all := ops + [op];
            && Moment(all) == Moment(ops) && all[..Moment(all)] == ops[..Moment(ops)]
            && Compresses(all, compressed, contentType, contentEncoding) == Compresses(ops, compressed, contentType, contentEncoding)
  {
    MomentStays(ops, op);
    hide TypeOf, EncodingOf, Written, Moment;
  }

  lemma MomentStays(ops: seq<Op>, op: Op)
    requires Moment(ops) < |ops|
    ensures var all, i := ops + [op], Moment(ops);
            Moment(all) == i && all[..i] == ops[..i] && all[..i + 1] == ops[..i + 1]
  {
    hide Forces;
    Begins(ops, op, |ops|);
    assert ops[..|ops|] == ops;
    assert Moment(ops + [op]) == Moment(ops);
    hide Moment;
    Begins(ops, op, Moment(ops));
    Begins(ops, op, Moment(ops) + 1);
  }

  lemma Begins(ops: seq<Op>, op: Op, i: nat)
    requires i <= |ops|
    ensures (ops + [op])[..i] == ops[..i]
  {
  }

  // Before that, one more operation may bring it about.
  lemma Undecided(ops: seq<Op>, op: Op, compressed: string -> bool, contentType: string, contentEncoding: string)
    requires Moment(ops) == |ops|
    ensures var all := ops + [op];
            && Written(all) == Written(ops) + (if op.Write? then op.data else [])
            && TypeOf(all, contentType) == (if op.SetHeaders? then op.contentType else TypeOf(ops, contentType))
            && EncodingOf(all, contentEncoding) == (if op.SetHeaders? then op.contentEncoding else EncodingOf(ops, contentEncoding))
            && if op.Flush? || |Written(all)| > SNIFF_BUF_SIZE then
                 && Moment(all) == |ops| && all[..Moment(all)] == ops
                 && (Compresses(all, compressed, contentType, contentEncoding) <==>
                       && !compressed(TypeOf(ops, contentType)) && EncodingOf(ops, contentEncoding) == ""
                       && |Written(all)| >= MIN_COMPRESS_SIZE)
               else Moment(all) == |all|
  {
    var all := ops + [op];
    assert all[..|ops|] == ops && all[..|all|] == all;
  }

  // A handler that never flushes and sets its header before it writes gets a
  // compressed response exactly if that header allows it and it writes 1024
  // bytes or more in all.
  lemma {:induction false} PlainHandler(ops: seq<Op>, headers: nat, compressed: string -> bool, contentType: string, contentEncoding: string)
    requires headers <= |ops|
    requires forall i | 0 <= i < |ops| :: !ops[i].Flush? && (if i < headers then !ops[i].Write? else !ops[i].SetHeaders?)
    ensures Compresses(ops, compressed, contentType, contentEncoding) <==>
              && !compressed(TypeOf(ops, contentType)) && EncodingOf(ops, contentEncoding) == ""
              && |Written(ops)| >= MIN_COMPRESS_SIZE
  {
    MomentMeans(ops);
    var i := Moment(ops);
    assert ops[..|ops|] == ops;
    if i < |ops| {
      WrittenGrows(ops, i + 1);
      if i < headers { NothingWritten(ops[..i + 1]); }
    }
    HeadersStay(ops, i, headers, contentType, contentEncoding);
  }

  lemma {:induction false} WrittenGrows(ops: seq<Op>, i: nat)
    requires i <= |ops|
    ensures Written(ops[..i]) <= Written(ops)
  {
    if i < |ops| {
      WrittenGrows(ops[..|ops| - 1], i);
      assert ops[..|ops| - 1][..i] == ops[..i];
    } else {
      assert ops[..i] == ops;
    }
  }

  lemma {:induction false} NothingWritten(ops: seq<Op>)
    requires forall i | 0 <= i < |ops| :: !ops[i].Write?
    ensures Written(ops) == []
  {
    if ops != [] { NothingWritten(ops[..|ops| - 1]); }
  }

  lemma {:induction false} HeadersStay(ops: seq<Op>, i: nat, headers: nat, contentType: string, contentEncoding: string)
    requires headers <= i <= |ops| || i == |ops|
    requires forall j | headers <= j < |ops| :: !ops[j].SetHeaders?
    ensures TypeOf(ops[..i], contentType) == TypeOf(ops, contentType)
    ensures EncodingOf(ops[..i], contentEncoding) == EncodingOf(ops, contentEncoding)
  {
    if i < |ops| {
      HeadersStay(ops[..|ops| - 1], i, headers, contentType, contentEncoding);
      assert ops[..|ops| - 1][..i] == ops[..i];
    } else {
      assert ops[..i] == ops;
    }
  }

  // ---- The writer beneath ----

  // A response writer as the server supplies it: of the header it knows the
  // two fields the middleware asks for and three it changes, and what the
  // content encoding was when the header went out.
  class ServerWriter {
    var status: nat
    var body: seq<byte>
    var flushed: nat
    var contentType: string
    var contentEncoding: string
    var contentLength: Option<nat>
    var vary: seq<string>
    var sentEncoding: string

    ghost function View(): Response
      reads this
    {
      Response(status, body, flushed)
    }

    constructor ()
      ensures View() == EMPTY
    {
      status, body, flushed := 0, [], 0;
      contentType, contentEncoding, contentLength, vary, sentEncoding := "", "", None, [], "";
    }

    method WriteHeader(code: nat)
      modifies this`status, this`sentEncoding
      ensures View() == Bare(old(View()), Op.WriteHeader(code))
      ensures sentEncoding == if old(status) == 0 && !Informational(code) then contentEncoding else old(sentEncoding)
    {
      if !Informational(code) && status == 0 {
        status, sentEncoding := code, contentEncoding;
      }
    }

    method Write(data: seq<byte>)
      modifies this`status, this`body, this`sentEncoding
      ensures View() == Bare(old(View()), Op.Write(data))
      ensures sentEncoding == if old(status) == 0 then contentEncoding else old(sentEncoding)
    {
      WriteHeader(STATUS_OK);
      body := body + data;
    }

    method Flush()
      modifies this`status, this`flushed, this`sentEncoding
      ensures View() == Bare(old(View()), Op.Flush)
      ensures sentEncoding == if old(status) == 0 then contentEncoding else old(sentEncoding)
    {
      WriteHeader(STATUS_OK);
      flushed := |body|;
    }
  }

  // A gzip stream: what has been compressed, and how much of that a reader of
  // its output so far can decode. The format itself is not modelled.
  class GzipStream {
    var plain: seq<byte>
    var readable: nat

    constructor ()
      ensures plain == [] && readable == 0
    {
      plain, readable := [], 0;
    }

    method Write(data: seq<byte>)
      modifies this`plain
      ensures plain == old(plain) + data
    {
      plain := plain + data;
    }

    method Flush()
      modifies this`readable
      ensures readable == |plain|
    {
      readable := |plain|;
    }
  }

  // What a client that undoes the content encoding gets.
  ghost function Received(w: ServerWriter, gz: GzipStream?): Response
    reads w, gz
  {
    if gz == null then w.View() else Response(w.status, gz.plain, gz.readable)
  }

  // ---- The middleware's writer ----

  class GzipResponseWriter {
    const w: ServerWriter
    // Which content types are compressed already.
    const compressed: string -> bool
    var gz: GzipStream?
    const arr: array<byte>
    // The sniff buffer is the first `n` bytes of `arr`.
    var n: nat
    var status: nat
    var decided: bool
    var skip: bool
    var wroteHeader: bool

    ghost predicate Valid()
      reads this, w, gz
    {
      && arr.Length == SNIFF_BUF_SIZE && n <= SNIFF_BUF_SIZE
      && (wroteHeader <==> status != 0) && !Informational(status) && (n > 0 ==> wroteHeader)
      && (!decided ==> gz == null && !skip && w.View() == EMPTY)
      && (decided ==> n == 0 && w.status != 0 && (skip <==> gz == null))
      && (gz != null ==> w.sentEncoding == "gzip")
    }

    // The response as it stands, counting what is still in the buffer.
    ghost function View(): Response
      requires arr.Length == SNIFF_BUF_SIZE && n <= SNIFF_BUF_SIZE
      reads this, w, gz, arr
    {
      var r := Received(w, gz);
      Response(Fixed(r.status, status), r.body + arr[..n], r.flushed)
    }

    // The decision stands once it is made, and with it the header; it is made
    // on the header as it was and `size` bytes.
    twostate predicate Stands(size: nat)
      reads this, w
    {
      if old(decided) then
        && decided && skip == old(skip) && gz == old(gz)
        && w.vary == old(w.vary) && w.contentLength == old(w.contentLength) && w.sentEncoding == old(w.sentEncoding)
      else if decided then
        && (gz != null <==> !compressed(old(w.contentType)) && old(w.contentEncoding) == "" && size >= MIN_COMPRESS_SIZE)
        && w.vary == old(w.vary) + ["Accept-Encoding"]
        && w.contentLength == (if gz != null then None else old(w.contentLength))
        && w.sentEncoding == if gz != null then "gzip" else old(w.contentEncoding)
      else
        && w.contentType == old(w.contentType) && w.contentEncoding == old(w.contentEncoding)
        && w.vary == old(w.vary) && w.contentLength == old(w.contentLength)
    }

    // After `ops`, on a header that began like this.
    ghost predicate After(ops: seq<Op>, contentType: string, contentEncoding: string, vary: seq<string>, length: Option<nat>)
      reads this, w
    {
      if Moment(ops) == |ops| then
        && !decided && n == |Written(ops)|
        && w.contentType == TypeOf(ops, contentType) && w.contentEncoding == EncodingOf(ops, contentEncoding)
        && w.vary == vary && w.contentLength == length
      else
        && decided && (gz != null <==> Compresses(ops, compressed, contentType, contentEncoding))
        && w.vary == vary + ["Accept-Encoding"] && w.contentLength == (if gz != null then None else length)
        && w.sentEncoding == if gz != null then "gzip" else EncodingOf(ops[..Moment(ops)], contentEncoding)
    }

    constructor (w: ServerWriter, compressed: string -> bool)
      requires w.View() == EMPTY
      ensures Valid() && View() == EMPTY && this.w == w && this.compressed == compressed && fresh(arr)
      ensures gz == null && !decided && n == 0
    {
      this.w, this.compressed := w, compressed;
      gz, n, status, decided, skip, wroteHeader := null, 0, 0, false, false, false;
      arr := new byte[SNIFF_BUF_SIZE](_ => 0);
    }

    method WriteHeader(code: nat)
      requires Valid() && code != 0
      modifies this`wroteHeader, this`status
      ensures Valid() && View() == Bare(old(View()), Op.WriteHeader(code)) && Stands(0)
    {
      if 100 <= code <= 199 && code != SWITCHING_PROTOCOLS {
        return;
      }
      if wroteHeader {
        return;
      }
      wroteHeader, status := true, code;
    }

    // Adds to the sniff buffer, in place.
    method Buffer(data: seq<byte>)
      requires Valid() && !decided && wroteHeader && n + |data| <= SNIFF_BUF_SIZE
      modifies this`n, arr
      ensures Valid() && !decided && n == old(n) + |data|
      ensures View() == old(View()).(body := old(View()).body + data) && View().status != 0
    {
      assert View().body == arr[..n];
      forall i | 0 <= i < |data| {
        arr[n + i] := data[i];
      }
      n := n + |data|;
    }

    method Write(data: seq<byte>) returns (count: nat)
      requires Valid()
      modifies this, w, gz, arr
      ensures Valid() && View() == Bare(old(View()), Op.Write(data)) && count == |data| && Stands(SNIFF_BUF_SIZE)
      ensures decided <==> old(decided) || old(n) + |data| > SNIFF_BUF_SIZE
      ensures !decided ==> n == old(n) + |data|
      ensures gz == old(gz) || fresh(gz)
    {
      if !wroteHeader {
        wroteHeader, status := true, STATUS_OK;
      }
      if decided {
        Pass(data);
        return |data|;
      }
      var room := SNIFF_BUF_SIZE - n;
      if |data| <= room {
        Buffer(data);
        return |data|;
      }
      Overflow(data, room);
      count := |data|;
    }

    // Fills the buffer, decides, and passes the rest on.
    method Overflow(data: seq<byte>, room: nat)
      requires Valid() && !decided && wroteHeader && room == SNIFF_BUF_SIZE - n < |data|
      modifies this, w, gz, arr
      ensures Valid() && View() == old(View()).(body := old(View()).body + data) && decided && Stands(SNIFF_BUF_SIZE)
      ensures gz == old(gz) || fresh(gz)
    {
      assert data == data[..room] + data[room..];
      hide View, Received, Informational;
      Buffer(data[..room]);
      Commit();
      Pass(data[room..]);
    }

    // On to the compressor, or to the writer beneath.
    method Pass(data: seq<byte>)
      requires Valid() && decided
      modifies w`status, w`body, w`sentEncoding, gz
      ensures Valid() && View() == old(View()).(body := old(View()).body + data) && w.sentEncoding == old(w.sentEncoding)
    {
      if skip {
        w.Write(data);
      } else {
        gz.Write(data);
      }
    }

    method Flush()
      requires Valid()
      modifies this, w, gz
      ensures Valid() && View() == Bare(old(View()), Op.Flush) && Stands(old(n))
      ensures decided && View().flushed == |View().body| == old(|View().body|)
      ensures gz == old(gz) || fresh(gz)
    {
      if !decided {
        Commit();
      }
      if !skip && gz != null {
        gz.Flush();
      }
      w.Flush();
    }

    // Sends the status and what is in the buffer as they are.
    method SendPlain()
      requires arr.Length == SNIFF_BUF_SIZE && n <= SNIFF_BUF_SIZE && !Informational(status) && w.View() == EMPTY
      modifies this`n, w`status, w`body, w`sentEncoding
      ensures n == 0 && w.View() == Response(Fixed(status, STATUS_OK), old(arr[..n]), 0) && w.sentEncoding == w.contentEncoding
    {
      if status != 0 {
        w.WriteHeader(status);
      }
      w.Write(arr[..n]);
      n := 0;
    }

    // Makes the decision and sends what is in the buffer.
    method Commit()
      requires Valid() && !decided
      modifies this, w
      ensures Valid() && decided && View() == old(View()).(status := Fixed(old(View()).status, STATUS_OK))
      ensures skip <==> compressed(old(w.contentType)) || old(w.contentEncoding) != "" || old(n) < MIN_COMPRESS_SIZE
      ensures Stands(old(n)) && (gz != null ==> fresh(gz))
    {
      decided := true;
      w.vary := w.vary + ["Accept-Encoding"];
      if compressed(w.contentType) || w.contentEncoding != "" || n < MIN_COMPRESS_SIZE {
        skip := true;
        SendPlain();
        return;
      }
      w.contentEncoding, w.contentLength := "gzip", None;
      if status != 0 {
        w.WriteHeader(status);
      }
      gz := new GzipStream();
      gz.Write(arr[..n]);
      n := 0;
    }

    // One operation of the handler, after `ops`.
    method Perform(op: Op, ghost ops: seq<Op>, ghost type0: string, ghost encoding0: string,
                   ghost vary0: seq<string>, ghost length0: Option<nat>)
      requires Valid() && OpOk(op) && View() == BareAll(ops) && After(ops, type0, encoding0, vary0, length0)
      modifies this, w, gz, arr
      ensures Valid() && View() == BareAll(ops + [op]) && After(ops + [op], type0, encoding0, vary0, length0)
      ensures gz == old(gz) || fresh(gz)
    {
      assert (ops + [op])[..|ops|] == ops;
      if Moment(ops) < |ops| {
        DecisionStays(ops, op, compressed, type0, encoding0);
      } else {
        Undecided(ops, op, compressed, type0, encoding0);
      }
      assert BareAll(ops + [op]) == Bare(BareAll(ops), op);
      assert op.SetHeaders? ==> Bare(View(), op) == View();
      hide Moment, Compresses, TypeOf, EncodingOf, Written, BareAll, Bare, Valid, View;
      match op
      case WriteHeader(code) => WriteHeader(code);
      case Write(data) => var _ := Write(data);
      case Flush => Flush();
      case SetHeaders(contentType, contentEncoding) => SetHeaders(contentType, contentEncoding);
    }

    method SetHeaders(contentType: string, contentEncoding: string)
      requires Valid()
      modifies w`contentType, w`contentEncoding
      ensures Valid() && View() == old(View()) && w.contentType == contentType && w.contentEncoding == contentEncoding
    {
      w.contentType, w.contentEncoding := contentType, contentEncoding;
    }

    // After the handler has returned; the stream it ends goes back to a pool.
    method Close() returns (ghost stream: GzipStream?)
      requires Valid()
      modifies this, w, gz
      ensures Received(w, stream).status == Finish(old(View())).status && Received(w, stream).body == old(View()).body
      ensures stream != null ==> w.sentEncoding == "gzip" && stream.readable == |stream.plain|
      ensures old(decided) ==>
                stream == old(gz) && w.vary == old(w.vary) && w.contentLength == old(w.contentLength) && w.sentEncoding == old(w.sentEncoding)
      ensures !old(decided) ==>
                && (stream != null <==>
                      !compressed(old(w.contentType)) && old(w.contentEncoding) == "" && old(n) >= MIN_COMPRESS_SIZE)
                && w.vary == old(w.vary) + ["Accept-Encoding"]
                && w.contentLength == (if stream != null then None else old(w.contentLength))
                && w.sentEncoding == if stream != null then "gzip" else old(w.contentEncoding)
      ensures stream == old(gz) || fresh(stream)
      ensures decided && gz == null
    {
      if !decided {
        Commit();
      }
      stream := gz;
      if !skip && gz != null {
        gz.Flush();
        gz := null;
      }
    }
  }

  // ---- Serving a request ----

  // A handler, as the operations it performs, behind the middleware: a client
  // that undoes the content encoding gets the status of the first operation
  // to fix one and all that was written, in order, as it would without. The
  // response is compressed exactly if that is worth it at the moment of the
  // decision; if it is not, the handler's own encoding goes out.
  method Serve(w: ServerWriter, compressed: string -> bool, ops: seq<Op>) returns (ghost stream: GzipStream?)
    requires w.View() == EMPTY && forall i | 0 <= i < |ops| :: OpOk(ops[i])
    modifies w
    ensures Finish(Received(w, stream)) == Finish(BareAll(ops))
    ensures Received(w, stream).body == Written(ops) && FirstWins(ops, w.status)
    ensures stream != null <==> Compresses(ops, compressed, old(w.contentType), old(w.contentEncoding))
    ensures stream != null ==> w.sentEncoding == "gzip" && stream.readable == |stream.plain| && w.contentLength.None?
    ensures stream == null ==>
              w.sentEncoding == EncodingOf(ops[..Moment(ops)], old(w.contentEncoding)) && w.contentLength == old(w.contentLength)
    ensures w.vary == old(w.vary) + ["Accept-Encoding"]
  {
    ghost var type0, encoding0, vary0, length0 := w.contentType, w.contentEncoding, w.vary, w.contentLength;
    var g := new GzipResponseWriter(w, compressed);
    for i := 0 to |ops|
      invariant g.w == w && g.compressed == compressed && fresh(g) && fresh(g.arr) && (g.gz != null ==> fresh(g.gz))
      invariant g.Valid() && g.View() == BareAll(ops[..i])
      invariant g.After(ops[..i], type0, encoding0, vary0, length0)
    {
      assert ops[..i + 1] == ops[..i] + [ops[i]];
      g.Perform(ops[i], ops[..i], type0, encoding0, vary0, length0);
    }
    assert ops[..|ops|] == ops && (Moment(ops) < |ops| ==> g.decided);
    BareStatus(ops);
    BareBody(ops);
    stream := g.Close();
  }
}
