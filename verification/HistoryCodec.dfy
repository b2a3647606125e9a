/** An event encoding and a compression that work as `History` assumes. */
module HistoryCodec {
  import opened Prelude
  import opened History

  /** A number as that many ones and a zero. */
  function Put(n: nat): (r: seq<byte>)
    ensures r != []
  {
    if n == 0 then [0] else [1] + Put(n - 1)
  }

  function PutChars(s: string): seq<byte> {
    if s == "" then [] else Put(s[0] as int) + PutChars(s[1..])
  }

  function PutString(s: string): seq<byte> {
    Put(|s|) + PutChars(s)
  }

  function PutOption(s: Option<string>): seq<byte> {
    match s case None => Put(0) case Some(t) => Put(1) + PutString(t)
  }

  function PutEvent(e: Event): seq<byte> {
    Put(e.micros) + (PutString(e.qname) + (Put(e.rcode) + (PutString(e.source) + (PutOption(e.upstream)
    + (PutString(e.client) + Put(e.qtype))))))
  }

  // What is written first can be told from what follows.

  lemma {:induction false} PutApart(n: nat, m: nat, a: seq<byte>, b: seq<byte>)
    requires Put(n) + a == Put(m) + b
    ensures n == m && a == b
    decreases n
  {
    var x, y := Put(n) + a, Put(m) + b;
    assert x[0] == Put(n)[0] && y[0] == Put(m)[0];
    if n == 0 {
      assert a == x[1..] && b == y[1..];
    } else {
      assert x[1..] == Put(n - 1) + a && y[1..] == Put(m - 1) + b;
      PutApart(n - 1, m - 1, a, b);
    }
  }

  lemma {:induction false} CharsApart(s: string, t: string, a: seq<byte>, b: seq<byte>)
    requires |s| == |t| && PutChars(s) + a == PutChars(t) + b
    ensures s == t && a == b
    decreases |s|
  {
    hide Put;
    if s != "" {
      assert PutChars(s) + a == Put(s[0] as int) + (PutChars(s[1..]) + a);
      assert PutChars(t) + b == Put(t[0] as int) + (PutChars(t[1..]) + b);
      PutApart(s[0] as int, t[0] as int, PutChars(s[1..]) + a, PutChars(t[1..]) + b);
      CharsApart(s[1..], t[1..], a, b);
      assert s == [s[0]] + s[1..] && t == [t[0]] + t[1..];
    } else {
      assert PutChars(s) + a == a && PutChars(t) + b == b;
    }
  }

  lemma {:induction false} StringApart(s: string, t: string, a: seq<byte>, b: seq<byte>)
    requires PutString(s) + a == PutString(t) + b
    ensures s == t && a == b
  {
    hide Put, PutChars;
    assert PutString(s) + a == Put(|s|) + (PutChars(s) + a) && PutString(t) + b == Put(|t|) + (PutChars(t) + b);
    PutApart(|s|, |t|, PutChars(s) + a, PutChars(t) + b);
    CharsApart(s, t, a, b);
  }

  lemma {:induction false} OptionApart(s: Option<string>, t: Option<string>, a: seq<byte>, b: seq<byte>)
    requires PutOption(s) + a == PutOption(t) + b
    ensures s == t && a == b
  {
    hide Put, PutString;
    var m, n := if s.None? then 0 else 1, if t.None? then 0 else 1;
    var u, v := if s.None? then a else PutString(s.value) + a, if t.None? then b else PutString(t.value) + b;
    assert PutOption(s) + a == Put(m) + u && PutOption(t) + b == Put(n) + v;
    PutApart(m, n, u, v);
    if s.Some? { StringApart(s.value, t.value, a, b); }
  }

  /** The fields of an event behind its name, followed by `a`. */
  function PutRest(e: Event, a: seq<byte>): seq<byte> {
    Put(e.rcode) + (PutString(e.source) + (PutOption(e.upstream) + (PutString(e.client) + (Put(e.qtype) + a))))
  }

  lemma {:induction false} EventSplits(e: Event, a: seq<byte>)
    ensures PutEvent(e) + a == Put(e.micros) + (PutString(e.qname) + PutRest(e, a))
  {
    hide Put, PutString, PutOption;
    var last := PutString(e.client) + Put(e.qtype);
    assert last + a == PutString(e.client) + (Put(e.qtype) + a);
    var opt := PutOption(e.upstream) + last;
    assert opt + a == PutOption(e.upstream) + (last + a);
    var source := PutString(e.source) + opt;
    assert source + a == PutString(e.source) + (opt + a);
    var code := Put(e.rcode) + source;
    assert code + a == Put(e.rcode) + (source + a);
    var name := PutString(e.qname) + code;
    assert name + a == PutString(e.qname) + (code + a);
  }

  lemma {:induction false} RestApart(e: Event, f: Event, a: seq<byte>, b: seq<byte>)
    requires PutRest(e, a) == PutRest(f, b)
    ensures e.rcode == f.rcode && e.source == f.source && e.upstream == f.upstream && e.client == f.client
    ensures e.qtype == f.qtype && a == b
  {
    hide Put, PutString, PutOption;
    var e4, f4 := Put(e.qtype) + a, Put(f.qtype) + b;
    var e3, f3 := PutString(e.client) + e4, PutString(f.client) + f4;
    var e2, f2 := PutOption(e.upstream) + e3, PutOption(f.upstream) + f3;
    PutApart(e.rcode, f.rcode, PutString(e.source) + e2, PutString(f.source) + f2);
    StringApart(e.source, f.source, e2, f2);
    OptionApart(e.upstream, f.upstream, e3, f3);
    StringApart(e.client, f.client, e4, f4);
    PutApart(e.qtype, f.qtype, a, b);
  }

  lemma {:induction false} EventApart(e: Event, f: Event, a: seq<byte>, b: seq<byte>)
    requires PutEvent(e) + a == PutEvent(f) + b
    ensures e == f && a == b
  {
    hide Put, PutString, PutRest, PutEvent;
    EventSplits(e, a);
    EventSplits(f, b);
    PutApart(e.micros, f.micros, PutString(e.qname) + PutRest(e, a), PutString(f.qname) + PutRest(f, b));
    StringApart(e.qname, f.qname, PutRest(e, a), PutRest(f, b));
    RestApart(e, f, a, b);
  }

  // Logs.

  function PutAll(es: seq<Event>): seq<byte> {
    if es == [] then [] else PutEvent(es[0]) + PutAll(es[1..])
  }

  lemma {:induction false} EventSome(e: Event)
    ensures PutEvent(e) != []
  {
    hide Put, PutString, PutOption;
    assert Put(e.micros) != [];
  }

  lemma {:induction false} AllApart(es: seq<Event>, fs: seq<Event>)
    requires PutAll(es) == PutAll(fs)
    ensures es == fs
    decreases |es|
  {
    hide PutEvent;
    if es == [] {
      if fs != [] { EventSome(fs[0]); }
    } else if fs == [] {
      EventSome(es[0]);
    } else {
      EventApart(es[0], fs[0], PutAll(es[1..]), PutAll(fs[1..]));
      AllApart(es[1..], fs[1..]);
      assert es == [es[0]] + es[1..] && fs == [fs[0]] + fs[1..];
    }
  }

  /** The events that were written. */
  ghost function Get(b: seq<byte>): seq<Event> {
    if es: seq<Event> :| PutAll(es) == b then es else []
  }

  lemma {:induction false} PutAllCat(es: seq<Event>, e: Event)
    ensures PutAll(es + [e]) == PutAll(es) + PutEvent(e)
    decreases |es|
  {
    hide PutEvent;
    var more := es + [e];
    if es == [] {
      assert more == [e] && [e][1..] == [];
      assert PutAll([e]) == PutEvent(e) + PutAll([e][1..]);
    } else {
      assert more[0] == es[0] && more[1..] == es[1..] + [e];
      PutAllCat(es[1..], e);
    }
  }

  lemma {:induction false} EncodesAs(c: Codec, es: seq<Event>)
    requires forall e: Event :: c.encode(e) == PutEvent(e)
    ensures EncodeAll(c, es) == PutAll(es)
    decreases |es|
  {
    hide PutEvent, PutAll;
    if es == [] {
      NothingPut();
    } else {
      var front, last := es[..|es| - 1], es[|es| - 1];
      EncodesAs(c, front);
      PutAllCat(front, last);
      assert es == front + [last];
    }
  }

  lemma {:induction false} NothingPut()
    ensures PutAll([]) == []
  {
  }

  ghost function Simple(): Codec {
    Codec(PutEvent, b => Get(b), b => [0] + b, b => if b == [] then [] else b[1..])
  }

  lemma {:induction false} SimpleWorks()
    ensures Works(Simple())
  {
    hide PutEvent, PutAll;
    var c := Simple();
    forall e: Event ensures c.encode(e) != [] { EventSome(e); }
    forall es: seq<Event> ensures c.decode(EncodeAll(c, es)) == es {
      EncodesAs(c, es);
      var b := PutAll(es);
      AllApart(Get(b), es);
    }
    forall b: seq<byte> ensures c.unzip(c.zip(b)) == b && c.zip(b) != [] {
      assert ([0] + b)[1..] == b;
    }
  }
}
