/** The walk of `DoozerConfig.Load` over the struct's fields, as a function of
    the declared fields, the prefix, the store and the codec, and the closed
    form of what that walk leaves behind. */
module Loading {
  import opened Doozer
  import opened Fields

  predicate Tagged(d: FieldDecl) {
    d.tag != ""
  }

  /** The store key bound to a field: the prefix followed by the tag. */
  function Path(prefix: string, d: FieldDecl): string {
    prefix + d.tag
  }

  /** The state `Load` threads through its loop: the struct's field values,
      the path-to-field registry `c.fields`, and the paths read so far. */
  datatype Walk = Walk(vals: seq<Value>, fields: map<string, nat>, gets: seq<string>)

  /** The loop of `Load` from field `i` on: untagged fields are skipped, a
      failing `Get` ends the walk before the path is registered, the path is
      registered before the payload is decoded, and an unsupported kind ends
      the walk after that registration. Nothing is rolled back. */
  function LoadFrom(decls: seq<FieldDecl>, prefix: string, store: Store, codec: Codec, i: nat, w: Walk)
    : (r: (Walk, Option<Error>))
    requires i <= |decls| == |w.vals|
    ensures |r.0.vals| == |w.vals|
    decreases |decls| - i
  {
    if i == |decls| then (w, None)
    else if !Tagged(decls[i]) then LoadFrom(decls, prefix, store, codec, i + 1, w)
    else
      var path := Path(prefix, decls[i]);
      var gets := w.gets + [path];
      match Get(store, path)
      case GetFailed(cause) => (w.(gets := gets), Some(GetError(cause)))
      case Found(data, _) =>
        var fields := w.fields[path := i];
        match FieldValue(decls[i].kind, data, codec)
        case Err(e) => (Walk(w.vals, fields, gets), Some(e))
        case Ok(v) => LoadFrom(decls, prefix, store, codec, i + 1, Walk(w.vals[i := v], fields, gets))
  }

  /** Field `j` ends the walk: it is tagged and either its `Get` fails or its
      kind is one `setFieldWithData` rejects. */
  predicate FailsAt(decls: seq<FieldDecl>, prefix: string, store: Store, j: nat)
    requires j < |decls|
  {
    Tagged(decls[j]) &&
    (Get(store, Path(prefix, decls[j])).GetFailed? || !Supported(decls[j].kind))
  }

  /** The error `Load` returns when field `j` ends the walk; a `Get` error wins
      over an unsupported kind, since the read comes first. */
  function ErrorAt(decls: seq<FieldDecl>, prefix: string, store: Store, j: nat): Error
    requires j < |decls|
  {
    match Get(store, Path(prefix, decls[j]))
    case GetFailed(cause) => GetError(cause)
    case Found(_, _) => UnsupportedField(UnsupportedMessageAsWritten(decls[j].kind))
  }

  /** The first field at or after `i` that ends the walk, or |decls| if none. */
  function FirstFailure(decls: seq<FieldDecl>, prefix: string, store: Store, i: nat): (k: nat)
    requires i <= |decls|
    ensures i <= k <= |decls|
    ensures k < |decls| ==> FailsAt(decls, prefix, store, k)
    ensures forall j :: i <= j < k ==> !FailsAt(decls, prefix, store, j)
    decreases |decls| - i
  {
    if i == |decls| then i
    else if FailsAt(decls, prefix, store, i) then i
    else FirstFailure(decls, prefix, store, i + 1)
  }

  /** The paths of the tagged fields in [lo, hi), in declaration order. */
  function TaggedPaths(decls: seq<FieldDecl>, prefix: string, lo: nat, hi: nat): seq<string>
    requires lo <= hi <= |decls|
    decreases hi - lo
  {
    if lo == hi then []
    else (if Tagged(decls[lo]) then [Path(prefix, decls[lo])] else [])
         + TaggedPaths(decls, prefix, lo + 1, hi)
  }

  /** One past the last field whose path the walk from `i` reads. */
  function ReadUpTo(decls: seq<FieldDecl>, prefix: string, store: Store, i: nat): (e: nat)
    requires i <= |decls|
  {
    var k := FirstFailure(decls, prefix, store, i);
    if k < |decls| then k + 1 else k
  }

  /** One past the last field the walk from `i` registers in `c.fields`: the
      failing field itself is registered unless its `Get` failed. */
  function RegisteredUpTo(decls: seq<FieldDecl>, prefix: string, store: Store, i: nat): (e: nat)
    requires i <= |decls|
  {
    var k := FirstFailure(decls, prefix, store, i);
    if k < |decls| && Get(store, Path(prefix, decls[k])).Found? then k + 1 else k
  }

  /** The value a field that the walk passes without failing receives. */
  function LoadedValue(decls: seq<FieldDecl>, prefix: string, store: Store, codec: Codec, j: nat): Value
    requires j < |decls| && Tagged(decls[j]) && !FailsAt(decls, prefix, store, j)
  {
    FieldValue(decls[j].kind, Get(store, Path(prefix, decls[j])).data, codec).value
  }

  /** The state the walk hands to field `i + 1` when field `i` is tagged and
      does not fail. */
  function NextWalk(decls: seq<FieldDecl>, prefix: string, store: Store, codec: Codec, i: nat, w: Walk): (r: Walk)
    requires i < |decls| == |w.vals| && Tagged(decls[i]) && !FailsAt(decls, prefix, store, i)
    ensures |r.vals| == |w.vals|
  {
    var path := Path(prefix, decls[i]);
    Walk(w.vals[i := LoadedValue(decls, prefix, store, codec, i)], w.fields[path := i], w.gets + [path])
  }

  /** What the walk does at field `i`, and where the first failure lies seen
      from `i` and from `i + 1`. */
  lemma LoadStep(decls: seq<FieldDecl>, prefix: string, store: Store, codec: Codec, i: nat, w: Walk)
    requires i < |decls| == |w.vals|
    ensures !Tagged(decls[i]) ==>
      LoadFrom(decls, prefix, store, codec, i, w) == LoadFrom(decls, prefix, store, codec, i + 1, w)
    ensures Tagged(decls[i]) && !FailsAt(decls, prefix, store, i) ==>
      LoadFrom(decls, prefix, store, codec, i, w) ==
        LoadFrom(decls, prefix, store, codec, i + 1, NextWalk(decls, prefix, store, codec, i, w))
    ensures !FailsAt(decls, prefix, store, i) ==>
      FirstFailure(decls, prefix, store, i) == FirstFailure(decls, prefix, store, i + 1)
    ensures FailsAt(decls, prefix, store, i) ==> FirstFailure(decls, prefix, store, i) == i
    ensures FailsAt(decls, prefix, store, i) ==>
      var path := Path(prefix, decls[i]);
      LoadFrom(decls, prefix, store, codec, i, w).0 ==
        Walk(w.vals, if Get(store, path).Found? then w.fields[path := i] else w.fields, w.gets + [path])
  {
  }

  /** Load returns nil exactly when no field fails, and otherwise the error of
      the first failing field. */
  lemma {:induction false} LoadError(decls: seq<FieldDecl>, prefix: string, store: Store, codec: Codec, i: nat, w: Walk)
    requires i <= |decls| == |w.vals|
    ensures var k := FirstFailure(decls, prefix, store, i);
      LoadFrom(decls, prefix, store, codec, i, w).1 ==
        if k == |decls| then None else Some(ErrorAt(decls, prefix, store, k))
    decreases |decls| - i
  {
    if i < |decls| {
      LoadStep(decls, prefix, store, codec, i, w);
      if !Tagged(decls[i]) {
        LoadError(decls, prefix, store, codec, i + 1, w);
      } else if !FailsAt(decls, prefix, store, i) {
        LoadError(decls, prefix, store, codec, i + 1, NextWalk(decls, prefix, store, codec, i, w));
      }
    }
  }

  /** Load reads exactly the paths `prefix + tag` of the tagged fields, in
      declaration order, up to and including the first failing one. */
  lemma {:induction false} LoadReads(decls: seq<FieldDecl>, prefix: string, store: Store, codec: Codec, i: nat, w: Walk)
    requires i <= |decls| == |w.vals|
    ensures LoadFrom(decls, prefix, store, codec, i, w).0.gets ==
      w.gets + TaggedPaths(decls, prefix, i, ReadUpTo(decls, prefix, store, i))
    decreases |decls| - i
  {
    if i < |decls| {
      LoadStep(decls, prefix, store, codec, i, w);
      var e := ReadUpTo(decls, prefix, store, i);
      if !Tagged(decls[i]) {
        LoadReads(decls, prefix, store, codec, i + 1, w);
        if FailsAt(decls, prefix, store, i) {
        } else {
          assert TaggedPaths(decls, prefix, i, e) == TaggedPaths(decls, prefix, i + 1, e);
        }
      } else if !FailsAt(decls, prefix, store, i) {
        var w' := NextWalk(decls, prefix, store, codec, i, w);
        LoadReads(decls, prefix, store, codec, i + 1, w');
        assert TaggedPaths(decls, prefix, i, e) == [Path(prefix, decls[i])] + TaggedPaths(decls, prefix, i + 1, e);
        assert w'.gets == w.gets + [Path(prefix, decls[i])];
      } else {
        assert TaggedPaths(decls, prefix, i, e) == [Path(prefix, decls[i])];
      }
    }
  }

  /** After Load, a tagged field before the first failure holds its decoded
      store value; every other field (untagged, the failing one, and all after
      it) keeps the value it had. */
  lemma {:induction false} LoadValues(decls: seq<FieldDecl>, prefix: string, store: Store, codec: Codec, i: nat, w: Walk)
    requires i <= |decls| == |w.vals|
    ensures var k := FirstFailure(decls, prefix, store, i);
      var r := LoadFrom(decls, prefix, store, codec, i, w).0;
      forall j :: 0 <= j < |decls| ==>
        r.vals[j] == if i <= j < k && Tagged(decls[j]) then LoadedValue(decls, prefix, store, codec, j)
                     else w.vals[j]
    decreases |decls| - i
  {
    if i < |decls| {
      LoadStep(decls, prefix, store, codec, i, w);
      if !Tagged(decls[i]) {
        LoadValues(decls, prefix, store, codec, i + 1, w);
      } else if !FailsAt(decls, prefix, store, i) {
        LoadValues(decls, prefix, store, codec, i + 1, NextWalk(decls, prefix, store, codec, i, w));
      }
    }
  }

  /** After Load, `c.fields` holds its old entries plus exactly the paths of
      the tagged fields the walk registered, and old entries for other paths
      are untouched. */
  lemma {:induction false} LoadRegisters(decls: seq<FieldDecl>, prefix: string, store: Store, codec: Codec, i: nat, w: Walk)
    requires i <= |decls| == |w.vals|
    ensures var e := RegisteredUpTo(decls, prefix, store, i);
      var r := LoadFrom(decls, prefix, store, codec, i, w).0;
      && (forall p :: p in r.fields <==> p in w.fields || p in TaggedPaths(decls, prefix, i, e))
      && (forall p :: p in r.fields && p !in TaggedPaths(decls, prefix, i, e) ==> r.fields[p] == w.fields[p])
    decreases |decls| - i
  {
    if i < |decls| {
      LoadStep(decls, prefix, store, codec, i, w);
      var e := RegisteredUpTo(decls, prefix, store, i);
      var path := Path(prefix, decls[i]);
      if !Tagged(decls[i]) {
        LoadRegisters(decls, prefix, store, codec, i + 1, w);
        if !FailsAt(decls, prefix, store, i) {
          assert TaggedPaths(decls, prefix, i, e) == TaggedPaths(decls, prefix, i + 1, e);
        }
      } else if !FailsAt(decls, prefix, store, i) {
        LoadRegisters(decls, prefix, store, codec, i + 1, NextWalk(decls, prefix, store, codec, i, w));
        assert TaggedPaths(decls, prefix, i, e) == [path] + TaggedPaths(decls, prefix, i + 1, e);
      } else if Get(store, path).Found? {
        assert TaggedPaths(decls, prefix, i, e) == [path];
      } else {
        assert e == i;
      }
    }
  }

  /** Every path Load registers points at a tagged field bound to that path. */
  lemma {:induction false} LoadRegistersTargets(decls: seq<FieldDecl>, prefix: string, store: Store, codec: Codec, i: nat, w: Walk)
    requires i <= |decls| == |w.vals|
    ensures var e := RegisteredUpTo(decls, prefix, store, i);
      var r := LoadFrom(decls, prefix, store, codec, i, w).0;
      forall p :: p in TaggedPaths(decls, prefix, i, e) ==>
        p in r.fields && i <= r.fields[p] < e && Tagged(decls[r.fields[p]]) && Path(prefix, decls[r.fields[p]]) == p
    decreases |decls| - i
  {
    if i < |decls| {
      LoadStep(decls, prefix, store, codec, i, w);
      var e := RegisteredUpTo(decls, prefix, store, i);
      var path := Path(prefix, decls[i]);
      if !Tagged(decls[i]) {
        LoadRegistersTargets(decls, prefix, store, codec, i + 1, w);
        if !FailsAt(decls, prefix, store, i) {
          assert TaggedPaths(decls, prefix, i, e) == TaggedPaths(decls, prefix, i + 1, e);
        }
      } else if !FailsAt(decls, prefix, store, i) {
        var w' := NextWalk(decls, prefix, store, codec, i, w);
        LoadRegisters(decls, prefix, store, codec, i + 1, w');
        LoadRegistersTargets(decls, prefix, store, codec, i + 1, w');
        var r := LoadFrom(decls, prefix, store, codec, i + 1, w').0;
        assert e == RegisteredUpTo(decls, prefix, store, i + 1);
        assert TaggedPaths(decls, prefix, i, e) == [path] + TaggedPaths(decls, prefix, i + 1, e);
        forall p | p in TaggedPaths(decls, prefix, i, e)
          ensures p in r.fields && i <= r.fields[p] < e && Tagged(decls[r.fields[p]])
          ensures Path(prefix, decls[r.fields[p]]) == p
        {
          if p !in TaggedPaths(decls, prefix, i + 1, e) {
            assert p == path && p in w'.fields;
          }
        }
      } else if Get(store, path).Found? {
        assert TaggedPaths(decls, prefix, i, e) == [path];
      }
    }
  }

  /** Among the registered fields sharing a path, the last one wins. */
  lemma {:induction false} LoadRegistersLast(decls: seq<FieldDecl>, prefix: string, store: Store, codec: Codec, i: nat, w: Walk)
    requires i <= |decls| == |w.vals|
    ensures var e := RegisteredUpTo(decls, prefix, store, i);
      var r := LoadFrom(decls, prefix, store, codec, i, w).0;
      forall j :: i <= j < e && Tagged(decls[j]) ==>
        Path(prefix, decls[j]) in r.fields && j <= r.fields[Path(prefix, decls[j])]
    decreases |decls| - i
  {
    if i < |decls| {
      LoadStep(decls, prefix, store, codec, i, w);
      var e := RegisteredUpTo(decls, prefix, store, i);
      var path := Path(prefix, decls[i]);
      if !Tagged(decls[i]) {
        LoadRegistersLast(decls, prefix, store, codec, i + 1, w);
      } else if !FailsAt(decls, prefix, store, i) {
        var w' := NextWalk(decls, prefix, store, codec, i, w);
        LoadRegisters(decls, prefix, store, codec, i + 1, w');
        LoadRegistersTargets(decls, prefix, store, codec, i + 1, w');
        LoadRegistersLast(decls, prefix, store, codec, i + 1, w');
        var r := LoadFrom(decls, prefix, store, codec, i + 1, w').0;
        assert e == RegisteredUpTo(decls, prefix, store, i + 1);
        if path in TaggedPaths(decls, prefix, i + 1, e) {
          assert i < r.fields[path];
        } else {
          assert path in w'.fields && r.fields[path] == i;
        }
      }
    }
  }

  /** When Load returns nil, every tagged field was read and is of kind Int
      or String and now holds its decoded store value, untagged fields are
      untouched, `c.fields` gained exactly the tagged paths, and the paths were
      read in declaration order. */
  lemma LoadSuccess(decls: seq<FieldDecl>, prefix: string, store: Store, codec: Codec, w: Walk)
    requires |decls| == |w.vals|
    requires LoadFrom(decls, prefix, store, codec, 0, w).1 == None
    ensures var r := LoadFrom(decls, prefix, store, codec, 0, w).0;
      && (forall j :: 0 <= j < |decls| && Tagged(decls[j]) ==>
            && Supported(decls[j].kind)
            && Get(store, Path(prefix, decls[j])).Found?
            && FieldValue(decls[j].kind, Get(store, Path(prefix, decls[j])).data, codec) == Ok(r.vals[j]))
      && (forall j :: 0 <= j < |decls| && !Tagged(decls[j]) ==> r.vals[j] == w.vals[j])
      && (forall p :: p in r.fields <==> p in w.fields || p in TaggedPaths(decls, prefix, 0, |decls|))
      && r.gets == w.gets + TaggedPaths(decls, prefix, 0, |decls|)
  {
    LoadError(decls, prefix, store, codec, 0, w);
    LoadValues(decls, prefix, store, codec, 0, w);
    LoadRegisters(decls, prefix, store, codec, 0, w);
    LoadReads(decls, prefix, store, codec, 0, w);
    var r := LoadFrom(decls, prefix, store, codec, 0, w).0;
    forall j | 0 <= j < |decls| && Tagged(decls[j])
      ensures Supported(decls[j].kind) && Get(store, Path(prefix, decls[j])).Found?
      ensures FieldValue(decls[j].kind, Get(store, Path(prefix, decls[j])).data, codec) == Ok(r.vals[j])
    {
      assert !FailsAt(decls, prefix, store, j);
      assert r.vals[j] == LoadedValue(decls, prefix, store, codec, j);
    }
  }

  /** A tagged Int field whose key is missing from the store is loaded as 0 when
      the codec rejects the empty body, and the walk goes past it without an
      error: the code never checks the revision `Get` returns. */
  lemma MissingKeyLoadsZero(decls: seq<FieldDecl>, prefix: string, store: Store, codec: Codec, w: Walk, j: nat)
    requires |decls| == |w.vals| && j < |decls|
    requires Tagged(decls[j]) && decls[j].kind == IntKind && Path(prefix, decls[j]) !in store
    requires codec.decodeInt([]).None?
    requires FirstFailure(decls, prefix, store, 0) >= j
    ensures FirstFailure(decls, prefix, store, 0) > j
    ensures LoadFrom(decls, prefix, store, codec, 0, w).0.vals[j] == IntValue(0)
  {
    assert !FailsAt(decls, prefix, store, j);
    LoadValues(decls, prefix, store, codec, 0, w);
  }

  /** The key of a field exists in the store: `Get` answers it with a body at
      a real revision, not at the revision of a missing file. */
  predicate Present(store: Store, path: string) {
    Get(store, path).Found? && Get(store, path).rev != MissingRev
  }

  /** The walk `Load` evidently intends, since it is documented to return an
      error when a key is not found: a key `Get` answers at the missing
      revision ends the walk with `NotFound`, before its path is registered.
      Otherwise it is the walk of `LoadFrom`. */
  function LoadFromChecked(decls: seq<FieldDecl>, prefix: string, store: Store, codec: Codec, i: nat, w: Walk)
    : (r: (Walk, Option<Error>))
    requires i <= |decls| == |w.vals|
    ensures |r.0.vals| == |w.vals|
    ensures r.1 == None ==>
      forall j :: i <= j < |decls| && Tagged(decls[j]) ==> Present(store, Path(prefix, decls[j]))
    decreases |decls| - i
  {
    if i == |decls| then (w, None)
    else if !Tagged(decls[i]) then LoadFromChecked(decls, prefix, store, codec, i + 1, w)
    else
      var path := Path(prefix, decls[i]);
      var gets := w.gets + [path];
      match Get(store, path)
      case GetFailed(cause) => (w.(gets := gets), Some(GetError(cause)))
      case Found(data, rev) =>
        if rev == MissingRev then (w.(gets := gets), Some(NotFound(path)))
        else
          var fields := w.fields[path := i];
          match FieldValue(decls[i].kind, data, codec)
          case Err(e) => (Walk(w.vals, fields, gets), Some(e))
          case Ok(v) => LoadFromChecked(decls, prefix, store, codec, i + 1, Walk(w.vals[i := v], fields, gets))
  }

  /** When every tagged key that `Get` finds exists, the intended walk and the
      walk of the code are the same. */
  lemma {:induction false} LoadCheckedAgrees(decls: seq<FieldDecl>, prefix: string, store: Store, codec: Codec, i: nat, w: Walk)
    requires i <= |decls| == |w.vals|
    requires forall j :: i <= j < |decls| && Tagged(decls[j]) && Get(store, Path(prefix, decls[j])).Found? ==>
      Present(store, Path(prefix, decls[j]))
    ensures LoadFromChecked(decls, prefix, store, codec, i, w) == LoadFrom(decls, prefix, store, codec, i, w)
    decreases |decls| - i
  {
    if i < |decls| {
      if !Tagged(decls[i]) {
        LoadCheckedAgrees(decls, prefix, store, codec, i + 1, w);
      } else {
        var path := Path(prefix, decls[i]);
        match Get(store, path)
        case GetFailed(_) =>
        case Found(data, _) =>
          match FieldValue(decls[i].kind, data, codec)
          case Err(_) =>
          case Ok(v) =>
            LoadCheckedAgrees(decls, prefix, store, codec, i + 1, Walk(w.vals[i := v], w.fields[path := i], w.gets + [path]));
      }
    }
  }

  /** The intended walk reports the first missing key: when every tagged field
      before `j` exists and is of a supported kind, and `j`'s key is missing,
      the walk returns `NotFound` for that key and leaves field `j` as it was. */
  lemma {:induction false} LoadCheckedReportsMissing(decls: seq<FieldDecl>, prefix: string, store: Store, codec: Codec,
                                                     i: nat, w: Walk, j: nat)
    requires i <= j < |decls| == |w.vals|
    requires Tagged(decls[j]) && Path(prefix, decls[j]) !in store
    requires forall k :: i <= k < j && Tagged(decls[k]) ==>
      Present(store, Path(prefix, decls[k])) && Supported(decls[k].kind)
    ensures var r := LoadFromChecked(decls, prefix, store, codec, i, w);
      r.1 == Some(NotFound(Path(prefix, decls[j]))) && r.0.vals[j] == w.vals[j]
    decreases j - i
  {
    if i < j {
      if !Tagged(decls[i]) {
        LoadCheckedReportsMissing(decls, prefix, store, codec, i + 1, w, j);
      } else {
        var path := Path(prefix, decls[i]);
        var v := FieldValue(decls[i].kind, Get(store, path).data, codec).value;
        var w' := Walk(w.vals[i := v], w.fields[path := i], w.gets + [path]);
        assert LoadFromChecked(decls, prefix, store, codec, i, w) == LoadFromChecked(decls, prefix, store, codec, i + 1, w');
        LoadCheckedReportsMissing(decls, prefix, store, codec, i + 1, w', j);
      }
    }
  }

  /** The scenario of TestSimple: prefix "/prefix/", fields `foo` (int) and
      `bar` (string), store holding 42 and "hello world". */
  lemma SimpleLoad(codec: Codec, forty2: Bytes, hello: Bytes, vals: seq<Value>)
    requires codec.decodeInt(forty2) == Some(42)
    requires codec.decodeString(hello) == Some("hello world")
    requires |vals| == 2
    ensures var decls := [FieldDecl("foo", IntKind), FieldDecl("bar", StringKind)];
      var store := map["/prefix/foo" := Found(forty2, 5), "/prefix/bar" := Found(hello, 6)];
      LoadFrom(decls, "/prefix/", store, codec, 0, Walk(vals, map[], [])) ==
        (Walk([IntValue(42), StringValue("hello world")],
              map["/prefix/foo" := 0, "/prefix/bar" := 1],
              ["/prefix/foo", "/prefix/bar"]),
         None)
  {
    var decls := [FieldDecl("foo", IntKind), FieldDecl("bar", StringKind)];
    var store := map["/prefix/foo" := Found(forty2, 5), "/prefix/bar" := Found(hello, 6)];
    var w1 := Walk(vals[0 := IntValue(42)], map["/prefix/foo" := 0], ["/prefix/foo"]);
    var w2 := Walk(w1.vals[1 := StringValue("hello world")],
                   map["/prefix/foo" := 0, "/prefix/bar" := 1], ["/prefix/foo", "/prefix/bar"]);
    assert Path("/prefix/", decls[0]) == "/prefix/foo";
    assert Path("/prefix/", decls[1]) == "/prefix/bar";
    assert Get(store, "/prefix/foo") == Found(forty2, 5);
    assert Get(store, "/prefix/bar") == Found(hello, 6);
    LoadStep(decls, "/prefix/", store, codec, 0, Walk(vals, map[], []));
    assert NextWalk(decls, "/prefix/", store, codec, 0, Walk(vals, map[], [])) == w1;
    LoadStep(decls, "/prefix/", store, codec, 1, w1);
    assert NextWalk(decls, "/prefix/", store, codec, 1, w1) == w2;
    assert w2.vals == [IntValue(42), StringValue("hello world")];
  }
}
