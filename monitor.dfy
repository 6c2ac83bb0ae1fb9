/** The body of `DoozerConfig.Monitor`: each delivered event whose path is
    registered in `c.fields` is decoded into that field; every other event is
    ignored; an unsupported field ends monitoring (`log.Fatal`). */
module Monitoring {
  import opened Doozer
  import opened Fields

  /** Every registered path points at a field of the struct. */
  predicate InRange(decls: seq<FieldDecl>, fields: map<string, nat>) {
    forall p :: p in fields ==> fields[p] < |decls|
  }

  /** No two registered paths point at the same field. */
  predicate Injective(fields: map<string, nat>) {
    forall p, q :: p in fields && q in fields && fields[p] == fields[q] ==> p == q
  }

  /** Event `evt` is for a registered field that `setFieldWithData` rejects. */
  predicate Fatal(decls: seq<FieldDecl>, fields: map<string, nat>, evt: Event)
    requires InRange(decls, fields)
  {
    evt.path in fields && !Supported(decls[fields[evt.path]].kind)
  }

  /** The loop of `Monitor` over the delivered events, from field values `vals`:
      the new values, and the error that stopped it, if any. */
  function ApplyEvents(decls: seq<FieldDecl>, fields: map<string, nat>, codec: Codec,
                       vals: seq<Value>, events: seq<Event>): (r: (seq<Value>, Option<Error>))
    requires InRange(decls, fields) && |vals| == |decls|
    ensures |r.0| == |vals|
    decreases |events|
  {
    if events == [] then (vals, None)
    else
      var evt := events[0];
      if evt.path in fields then
        var j := fields[evt.path];
        match FieldValue(decls[j].kind, evt.body, codec)
        case Err(e) => (vals, Some(e))
        case Ok(v) => ApplyEvents(decls, fields, codec, vals[j := v], events[1..])
      else ApplyEvents(decls, fields, codec, vals, events[1..])
  }

  /** The index of the last event for `path`, or -1 when there is none. */
  function LastIndex(events: seq<Event>, path: string): (k: int)
    ensures -1 <= k < |events|
    ensures k >= 0 ==> events[k].path == path
    ensures forall i :: k < i < |events| ==> events[i].path != path
    decreases |events|
  {
    if events == [] then -1
    else if events[|events| - 1].path == path then |events| - 1
    else LastIndex(events[..|events| - 1], path)
  }

  /** The last event for a path is found in the tail, or is the head. */
  lemma {:induction false} LastIndexCons(evt: Event, rest: seq<Event>, path: string)
    ensures var k := LastIndex(rest, path);
      LastIndex([evt] + rest, path) ==
        if k >= 0 then k + 1 else if evt.path == path then 0 else -1
    decreases |rest|
  {
    if rest != [] && rest[|rest| - 1].path != path {
      var front := rest[..|rest| - 1];
      LastIndexCons(evt, front, path);
      assert ([evt] + rest)[..|rest|] == [evt] + front;
    }
  }

  /** With no fatal event, each registered field ends up holding the decoded
      body of the last event for its path (or keeps its value when there is
      none), and no unregistered field changes. */
  lemma {:induction false} MonitorLastEventWins(decls: seq<FieldDecl>, fields: map<string, nat>, codec: Codec,
                                                vals: seq<Value>, events: seq<Event>)
    requires InRange(decls, fields) && Injective(fields) && |vals| == |decls|
    requires forall k :: 0 <= k < |events| ==> !Fatal(decls, fields, events[k])
    ensures var r := ApplyEvents(decls, fields, codec, vals, events);
      && r.1 == None
      && (forall p :: p in fields ==>
            var k := LastIndex(events, p);
            if k >= 0 then FieldValue(decls[fields[p]].kind, events[k].body, codec) == Ok(r.0[fields[p]])
            else r.0[fields[p]] == vals[fields[p]])
      && (forall j :: 0 <= j < |vals| && j !in fields.Values ==> r.0[j] == vals[j])
    decreases |events|
  {
    if events != [] {
      var evt, rest := events[0], events[1..];
      assert events == [evt] + rest;
      var vals' := vals;
      if evt.path in fields {
        var j := fields[evt.path];
        vals' := vals[j := FieldValue(decls[j].kind, evt.body, codec).value];
      }
      MonitorLastEventWins(decls, fields, codec, vals', rest);
      forall p | p in fields
        ensures LastIndex(events, p) == var k := LastIndex(rest, p);
          if k >= 0 then k + 1 else if evt.path == p then 0 else -1
      {
        LastIndexCons(evt, rest, p);
      }
    }
  }

  /** Monitoring stops at the first fatal event: the events before it are
      applied, it and everything after it are not, and the error names the
      field's kind. */
  lemma {:induction false} MonitorStopsAtFatal(decls: seq<FieldDecl>, fields: map<string, nat>, codec: Codec,
                                               vals: seq<Value>, events: seq<Event>, k: nat)
    requires InRange(decls, fields) && |vals| == |decls|
    requires k < |events| && Fatal(decls, fields, events[k])
    requires forall i :: 0 <= i < k ==> !Fatal(decls, fields, events[i])
    ensures ApplyEvents(decls, fields, codec, vals, events) ==
      (ApplyEvents(decls, fields, codec, vals, events[..k]).0,
       Some(UnsupportedField(UnsupportedMessageAsWritten(decls[fields[events[k].path]].kind))))
    decreases k
  {
    if k > 0 {
      var evt := events[0];
      var vals' := vals;
      if evt.path in fields {
        var j := fields[evt.path];
        vals' := vals[j := FieldValue(decls[j].kind, evt.body, codec).value];
      }
      MonitorStopsAtFatal(decls, fields, codec, vals', events[1..], k - 1);
      assert events[1..][..k - 1] == events[..k][1..];
    }
  }

  /** The scenario of TestMonitor: field `Foo` bound to "/foo" holds 42, and a
      set of "/foo" to 69 leaves it holding 69. */
  lemma MonitorSetsBoundField(codec: Codec, sixty9: Bytes, rev: int)
    requires codec.decodeInt(sixty9) == Some(69)
    ensures ApplyEvents([FieldDecl("/foo", IntKind)], map["/foo" := 0], codec,
                        [IntValue(42)], [Event("/foo", rev, sixty9)]) == ([IntValue(69)], None)
  {
    var events := [Event("/foo", rev, sixty9)];
    assert events[1..] == [];
    assert [IntValue(42)][0 := IntValue(69)] == [IntValue(69)];
  }
}
