/** `DoozerConfig`: binds the fields of a configuration struct to keys of a
    doozer store, loads them once and keeps them up to date from the store's
    mutations. */
module Config {
  import opened Doozer
  import opened Fields
  import opened Loading
  import opened Watching
  import opened Monitoring

  /** Every entry of `c.fields` names a tagged field and is that field's key. */
  predicate Bound(decls: seq<FieldDecl>, prefix: string, fields: map<string, nat>) {
    forall p :: p in fields ==>
      fields[p] < |decls| && Tagged(decls[fields[p]]) && Path(prefix, decls[fields[p]]) == p
  }

  /** A bound registry points into the struct and never at one field twice. */
  lemma BoundIsInjective(decls: seq<FieldDecl>, prefix: string, fields: map<string, nat>)
    requires Bound(decls, prefix, fields)
    ensures InRange(decls, fields) && Injective(fields)
  {
  }

  /** How a call to `Monitor` ends. */
  datatype MonitorEnd =
    | FieldFailed(err: Error)    // setFieldWithData failed: Monitor calls log.Fatal
    | WatchFailed(cause: string) // Wait failed: doozerWatch closes the stream and calls log.Fatal
    | RepliesExhausted           // the store gave no further answer

  class DoozerConfig {
    /** The struct's declared fields, as `reflect` sees its type. */
    const decls: seq<FieldDecl>
    /** The struct the caller passed in; Load and Monitor write its fields. */
    const configStruct: array<Value>
    const prefix: string
    /** Store path -> index of the field bound to it. */
    var fields: map<string, nat>

    ghost predicate Valid()
      reads this, configStruct
    {
      configStruct.Length == |decls| && Typed(decls, configStruct[..]) && Bound(decls, prefix, fields)
    }

    /** `New(conn, configStruct, prefix)`: nothing is bound yet. */
    constructor New(decls: seq<FieldDecl>, configStruct: array<Value>, prefix: string)
      requires configStruct.Length == |decls| && Typed(decls, configStruct[..])
      ensures Valid()
      ensures this.decls == decls && this.configStruct == configStruct && this.prefix == prefix
      ensures fields == map[]
    {
      this.decls := decls;
      this.configStruct := configStruct;
      this.prefix := prefix;
      fields := map[];
    }

    /** `Load()`: read and decode every tagged field in declaration order,
        stopping at the first error without undoing earlier fields. `gets` is
        the sequence of paths passed to `conn.Get`. */
    method Load(store: Store, codec: Codec) returns (err: Option<Error>, gets: seq<string>)
      requires Valid()
      modifies this, configStruct
      ensures Valid()
      ensures var r := LoadFrom(decls, prefix, store, codec, 0, Walk(old(configStruct[..]), old(fields), []));
        configStruct[..] == r.0.vals && fields == r.0.fields && gets == r.0.gets && err == r.1
    {
      ghost var start := Walk(configStruct[..], fields, []);
      gets := [];
      var i := 0;
      while i < configStruct.Length
        invariant 0 <= i <= |decls|
        invariant Valid()
        invariant LoadFrom(decls, prefix, store, codec, 0, start) ==
                  LoadFrom(decls, prefix, store, codec, i, Walk(configStruct[..], fields, gets))
      {
        var d := decls[i];
        if d.tag == "" {
          i := i + 1;
          continue;
        }
        var path := prefix + d.tag;
        gets := gets + [path];
        match Get(store, path) {
          case GetFailed(cause) =>
            return Some(GetError(cause)), gets;
          case Found(data, _) =>
            fields := fields[path := i];
            err := SetFieldWithData(configStruct, i, d.kind, data, codec);
            if err.Some? {
              return;
            }
        }
        i := i + 1;
      }
      return None, gets;
    }

    /** `Monitor(glob, rev)`: run the watch from `rev` and write each delivered
        event for a registered path into its field. `replies` are the store's
        answers to the watch's successive waits. */
    method Monitor(rev: int, replies: seq<WaitReply>, codec: Codec) returns (end: MonitorEnd)
      requires Valid()
      modifies configStruct
      ensures Valid() && fields == old(fields)
      ensures InRange(decls, fields)
      ensures var w := Watch(rev, replies);
        var r := ApplyEvents(decls, fields, codec, old(configStruct[..]), w.events);
        && configStruct[..] == r.0
        && end == if r.1.Some? then FieldFailed(r.1.value)
                  else if w.failure.Some? then WatchFailed(w.failure.value)
                  else RepliesExhausted
    {
      BoundIsInjective(decls, prefix, fields);
      ghost var start := configStruct[..];
      var events, _, failure := DoozerWatch(rev, replies);
      var k := 0;
      while k < |events|
        invariant 0 <= k <= |events|
        invariant Valid()
        invariant ApplyEvents(decls, fields, codec, start, events) ==
                  ApplyEvents(decls, fields, codec, configStruct[..], events[k..])
      {
        var evt := events[k];
        ghost var before := configStruct[..];
        assert events[k..][0] == evt && events[k..][1..] == events[k + 1..];
        if evt.path in fields {
          var j := fields[evt.path];
          var err := SetFieldWithData(configStruct, j, decls[j].kind, evt.body, codec);
          if err.Some? {
            assert ApplyEvents(decls, fields, codec, before, events[k..]) == (before, err);
            return FieldFailed(err.value);
          }
          assert configStruct[..] == before[j := FieldValue(decls[j].kind, evt.body, codec).value];
        }
        k := k + 1;
      }
      if failure.Some? {
        return WatchFailed(failure.value);
      }
      return RepliesExhausted;
    }
  }
}
