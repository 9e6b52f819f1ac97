/** `set_field` (src/commands/set_field.rs) and the `set` command of
    src/cli.rs: write `key = value` into the table `root_key` of every
    selected manifest, creating the table when it is missing. */
module SetField {
  import opened Wrappers
  import opened Toml
  import opened Cargo
  import opened Store
  import opened Strings
  import Assoc
  import Cascade

  const UseRename := "To change the name please use the rename command!"

  function NotATable(p: Package, rootKey: string): string {
    "Error in manifest of " + p.name + ": root key " + rootKey + " is not a table."
  }

  /** The manifest has `rootKey` as a standard table holding `key = value`. */
  predicate FieldIs(doc: Table, rootKey: string, key: string, value: Value) {
    SubTable(doc, rootKey).Some? && Assoc.Get(SubTable(doc, rootKey).value, key) == Some(Val(value))
  }

  /** The edit of one manifest. The root key is looked up, a fresh empty
      table taking its place when it is missing; anything but a standard
      table there (an inline table included) fails with the package's name. */
  function SetIn(p: Package, doc: Table, rootKey: string, key: string, value: Value): (r: Result<((), Table)>)
    ensures r.Err? <==> Assoc.HasKey(doc, rootKey) && !Assoc.Get(doc, rootKey).value.Tbl?
    ensures r.Err? ==> r.error == NotATable(p, rootKey)
    ensures r.Ok? ==> FieldIs(r.value.1, rootKey, key, value)
  {
    var d := Assoc.GetOrInsert(doc, rootKey, Tbl([]));
    var t := Assoc.Get(d, rootKey).value;
    if !t.Tbl? then Err(NotATable(p, rootKey))
    else Ok(((), Assoc.Set(d, rootKey, Tbl(Assoc.Set(t.entries, key, Val(value))))))
  }

  /** Nothing else moves: the other top-level entries keep their contents,
      and a new root table is appended after the existing keys. */
  lemma {:induction false} SetInFrame(p: Package, doc: Table, rootKey: string, key: string, value: Value)
    ensures var r := SetIn(p, doc, rootKey, key, value);
      r.Ok? ==>
        && (forall k :: k != rootKey ==> Assoc.Get(r.value.1, k) == Assoc.Get(doc, k))
        && Assoc.Keys(r.value.1) == (if Assoc.HasKey(doc, rootKey) then Assoc.Keys(doc) else Assoc.Keys(doc) + [rootKey])
  {
    var d := Assoc.GetOrInsert(doc, rootKey, Tbl([]));
    assert Assoc.Keys(d) == (if Assoc.HasKey(doc, rootKey) then Assoc.Keys(doc) else Assoc.Keys(doc) + [rootKey]);
    assert Assoc.HasKey(d, rootKey);
  }

  /** The other entries of the root table keep their contents; a missing
      root table is created holding the field alone. */
  lemma {:induction false} SetInKeepsSiblings(p: Package, doc: Table, rootKey: string, key: string, value: Value)
    ensures var r := SetIn(p, doc, rootKey, key, value);
      r.Ok? ==>
        && (forall k :: k != key && SubTable(doc, rootKey).Some? ==>
              Assoc.Get(SubTable(r.value.1, rootKey).value, k) == Assoc.Get(SubTable(doc, rootKey).value, k))
        && (!Assoc.HasKey(doc, rootKey) ==> SubTable(r.value.1, rootKey) == Some([(key, Val(value))]))
  {
    var r := SetIn(p, doc, rootKey, key, value);
    if r.Ok? {
      var d := Assoc.GetOrInsert(doc, rootKey, Tbl([]));
      var t := Assoc.Get(d, rootKey).value;
      assert SubTable(r.value.1, rootKey) == Some(Assoc.Set(t.entries, key, Val(value)));
      if !Assoc.HasKey(doc, rootKey) {
        assert t == Tbl([]);
        assert Assoc.Keys(t.entries) == [];
        assert Assoc.Set(t.entries, key, Val(value)) == [(key, Val(value))];
      } else {
        assert d == doc;
      }
    }
  }

  /** Setting the same field twice is setting it once. */
  lemma {:induction false} SetInIdempotent(p: Package, doc: Table, rootKey: string, key: string, value: Value)
    ensures var r := SetIn(p, doc, rootKey, key, value);
      r.Ok? ==> SetIn(p, r.value.1, rootKey, key, value) == r
  {
    var r := SetIn(p, doc, rootKey, key, value);
    if r.Ok? {
      var d := Assoc.GetOrInsert(doc, rootKey, Tbl([]));
      var t := Assoc.Get(d, rootKey).value;
      var inner := Assoc.Set(t.entries, key, Val(value));
      Assoc.SetToCurrent(inner, key);
      Assoc.SetToCurrent(r.value.1, rootKey);
    }
  }

  function Editor(rootKey: string, key: string, value: Value): Edit<()> {
    (p: Package, doc: Table) => SetIn(p, doc, rootKey, key, value)
  }

  /** `set_field` as written: the result of `edit_each` is dropped, so the
      call reports success whatever happened, while the run still stops at
      the first failing manifest. */
  function SetFieldAsWritten(store: Store, pkgs: seq<Package>, rootKey: string, key: string, value: Value): (r: (Store, Result<()>))
    ensures r.0.Keys == store.Keys
    ensures r.1 == Ok(())
  {
    (EditEach(store, pkgs, Editor(rootKey, key, value)).store, Ok(()))
  }

  /** A root key that is a string: the run edits nothing and still succeeds. */
  lemma {:induction false} AsWrittenHidesNotATable(store: Store, p: Package)
    requires store == map[p.manifestPath := [("package", Val(Str("x")))]]
    ensures var r := SetFieldAsWritten(store, [p], "package", "edition", Str("2021"));
      r.1 == Ok(()) && r.0 == store && !FieldIs(r.0[p.manifestPath], "package", "edition", Str("2021"))
  {
    assert Assoc.Get(store[p.manifestPath], "package") == Some(Val(Str("x")));
  }

  /** `set_field` reporting the failure it was given: the first unreadable
      manifest or root key that is not a table ends the run with its error. */
  function SetFieldReporting(store: Store, pkgs: seq<Package>, rootKey: string, key: string, value: Value): (r: (Store, Result<()>))
    ensures r.0.Keys == store.Keys
  {
    var run := EditEach(store, pkgs, Editor(rootKey, key, value));
    (run.store, if run.results.Err? then Err(run.results.error) else Ok(()))
  }

  /** The root key can take the field: missing, or a standard table. */
  predicate Settable(doc: Table, rootKey: string) {
    !Assoc.HasKey(doc, rootKey) || Assoc.Get(doc, rootKey).value.Tbl?
  }

  /** With one package per manifest, the reporting run succeeds exactly
      when every manifest is readable and settable, and then every manifest
      holds the field. */
  lemma {:induction false} ReportingOk(store: Store, pkgs: seq<Package>, rootKey: string, key: string, value: Value)
    requires DistinctManifests(pkgs)
    ensures var r := SetFieldReporting(store, pkgs, rootKey, key, value);
      && (r.1.Ok? <==> forall i :: 0 <= i < |pkgs| ==> pkgs[i].manifestPath in store && Settable(store[pkgs[i].manifestPath], rootKey))
      && (r.1.Ok? ==> forall i :: 0 <= i < |pkgs| ==> FieldIs(r.0[pkgs[i].manifestPath], rootKey, key, value))
  {
    var f := Editor(rootKey, key, value);
    EditEachOk(store, pkgs, f);
    EditEachPerManifest(store, pkgs, f);
  }

  /** A failed reporting run names the first package whose root key is not
      a table, or the unreadable manifest, and left that manifest and every
      later one as they were. */
  lemma {:induction false} ReportingFails(store: Store, pkgs: seq<Package>, rootKey: string, key: string, value: Value)
    requires DistinctManifests(pkgs)
    ensures var r := SetFieldReporting(store, pkgs, rootKey, key, value);
      r.1.Err? ==> exists i :: (0 <= i < |pkgs| &&
        (if pkgs[i].manifestPath in store then r.1.error == NotATable(pkgs[i], rootKey) else r.1.error == ManifestUnreadable) &&
        forall j :: i <= j < |pkgs| && pkgs[j].manifestPath in store ==> r.0[pkgs[j].manifestPath] == store[pkgs[j].manifestPath])
  {
    var f := Editor(rootKey, key, value);
    EditEachStops(store, pkgs, f);
  }

  /** `bool::from_str`: exactly `true` or `false`. */
  function ParseBool(s: string): (r: Option<bool>)
    ensures r.Some? <==> s == "true" || s == "false"
    ensures r.Some? ==> (r.value <==> s == "true")
  {
    if s == "true" then Some(true) else if s == "false" then Some(false) else None
  }

  const I64_MIN: int := -0x8000_0000_0000_0000
  const I64_MAX: int := 0x7FFF_FFFF_FFFF_FFFF

  /** `s.parse::<i64>()`: an optional sign, at least one digit, in range. */
  function ParseI64(s: string): (r: Option<int>)
    ensures r.Some? ==> I64_MIN <= r.value <= I64_MAX
    ensures r.Some? ==> |s| > 0 && (IsDigit(s[0]) || s[0] == '+' || s[0] == '-')
  {
    var negative := |s| > 0 && s[0] == '-';
    var digits := if |s| > 0 && (s[0] == '+' || s[0] == '-') then s[1..] else s;
    if |digits| == 0 || !AllDigits(digits) then None
    else
      var v: int := if negative then -(DigitsValue(digits) as int) else DigitsValue(digits);
      if I64_MIN <= v <= I64_MAX then Some(v) else None
  }

  /** `format!("{}", n)` for a signed integer. */
  function IntToString(n: int): string {
    if n < 0 then "-" + NatToString(-n) else NatToString(n)
  }

  /** Every 64-bit integer parses back from its decimal rendering. */
  lemma {:induction false} ParseI64OfIntToString(n: int)
    requires I64_MIN <= n <= I64_MAX
    ensures ParseI64(IntToString(n)) == Some(n)
  {
    if n < 0 {
      NatToStringValue(-n);
      ParseNegative(NatToString(-n));
    } else {
      NatToStringValue(n);
      ParseUnsigned(NatToString(n));
    }
  }

  lemma {:induction false} ParseNegative(t: string)
    requires |t| > 0 && AllDigits(t) && DigitsValue(t) <= -I64_MIN
    ensures ParseI64("-" + t) == Some(-(DigitsValue(t) as int))
  {
    assert ("-" + t)[0] == '-' && ("-" + t)[1..] == t;
  }

  lemma {:induction false} ParseUnsigned(t: string)
    requires |t| > 0 && AllDigits(t) && DigitsValue(t) <= I64_MAX
    ensures ParseI64(t) == Some(DigitsValue(t) as int)
  {
    assert IsDigit(t[0]);
  }

  /** The command-line value as a TOML value: a boolean, else a 64-bit
      integer, else the text as a string. */
  function TypedValue(s: string): (r: Value)
    ensures r.Bool? <==> s == "true" || s == "false"
    ensures r.Bool? ==> (r.b <==> s == "true")
    ensures r.Int? <==> ParseBool(s).None? && ParseI64(s).Some?
    ensures r.Int? ==> r.i == ParseI64(s).value
    ensures r.Str? ==> r.s == s
    ensures r.Bool? || r.Int? || r.Str?
  {
    var b := ParseBool(s);
    if b.Some? then Bool(b.value)
    else
      var n := ParseI64(s);
      if n.Some? then Int(n.value) else Str(s)
  }

  /** A rendered 64-bit integer is stored as that integer. */
  lemma {:induction false} TypedValueOfInt(n: int)
    requires I64_MIN <= n <= I64_MAX
    ensures TypedValue(IntToString(n)) == Int(n)
  {
    ParseI64OfIntToString(n);
    var s := IntToString(n);
    assert s != "true" && s != "false" by {
      assert IsDigit(s[0]) || s[0] == '-';
    }
  }

  /** The `set` command: the field `name` is refused before anything else;
      otherwise the typed value is set in every member the predicate selects,
      and, as `set_field` is written, the command then reports success. */
  function SetCommand(ws: Workspace, store: Store, pred: Package -> bool, rootKey: string, name: string, value: string): (r: (Store, Result<()>))
    ensures name == "name" ==> r == (store, Err(UseRename))
    ensures name != "name" ==> r.1 == Ok(())
    ensures r.0.Keys == store.Keys
  {
    if name == "name" then (store, Err(UseRename))
    else SetFieldAsWritten(store, Cascade.Filter(ws.members, pred), rootKey, name, TypedValue(value))
  }

  /** The `set` command with `set_field` passing on the error it was given:
      it writes what the command as written writes, and it fails only where
      that one refuses `name` or where an edit failed. */
  function SetCommandReporting(ws: Workspace, store: Store, pred: Package -> bool, rootKey: string, name: string, value: string): (r: (Store, Result<()>))
    ensures r.0 == SetCommand(ws, store, pred, rootKey, name, value).0
    ensures SetCommand(ws, store, pred, rootKey, name, value).1.Err? ==> r.1.Err?
    ensures r.1.Err? && name != "name" ==>
      EditEach(store, Cascade.Filter(ws.members, pred), Editor(rootKey, name, TypedValue(value))).results.Err?
  {
    if name == "name" then (store, Err(UseRename))
    else SetFieldReporting(store, Cascade.Filter(ws.members, pred), rootKey, name, TypedValue(value))
  }

  /** Members the predicate leaves out keep their manifests. */
  lemma {:induction false} SetCommandSkipsUnselected(ws: Workspace, store: Store, pred: Package -> bool, rootKey: string, name: string, value: string, m: Package)
    requires m.manifestPath in store
    requires forall q :: q in ws.members && pred(q) ==> q.manifestPath != m.manifestPath
    ensures SetCommand(ws, store, pred, rootKey, name, value).0[m.manifestPath] == store[m.manifestPath]
  {
    var selected := Cascade.Filter(ws.members, pred);
    assert NotAManifestOf(m.manifestPath, selected) by {
      forall i | 0 <= i < |selected| ensures selected[i].manifestPath != m.manifestPath {
        assert selected[i] in selected;
      }
    }
  }
}
