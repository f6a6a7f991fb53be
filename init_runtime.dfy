/**
 * The runtime initializer as it runs: it builds one record per module,
 * links every import slot, initializes the module-defined globals (on
 * demand along import chains, with a three-state guard against cycles)
 * and finally evaluates the segment offsets that read imported globals.
 */
module InitRuntime {
  import opened Arith
  import opened WasmTypes
  import opened InitModel

  // ---------------------------------------------------------------------
  // Building one module's record

  /** The function and code sections agree in length and every type index exists. */
  method CheckFuncs(sec: ModuleSections) returns (err: Option<InitError>)
    ensures err.None? <==> FuncsValid(sec)
    ensures |sec.funcTypes| != sec.codeCount ==> err == Some(FuncCodeCountMismatch)
    ensures err.Some? && err.value.TypeIndexOutOfRange? ==>
      var i := err.value.func;
      i < |sec.funcTypes| && sec.funcTypes[i] >= sec.typeCount
      && forall k :: 0 <= k < i ==> sec.funcTypes[k] < sec.typeCount
  {
    if |sec.funcTypes| != sec.codeCount {
      return Some(FuncCodeCountMismatch);
    }
    var i: nat := 0;
    while i < |sec.funcTypes|
      invariant i <= |sec.funcTypes|
      invariant forall k :: 0 <= k < i ==> sec.funcTypes[k] < sec.typeCount
    {
      if sec.funcTypes[i] >= sec.typeCount {
        return Some(TypeIndexOutOfRange(i));
      }
      i := i + 1;
    }
    return None;
  }

  /** The globals' static parts and first cells, or the first global whose initializer is refused. */
  method InitialGlobals(decls: seq<GlobalDecl>) returns (res: Outcome<seq<Cell>>)
    ensures res.Ok? ==>
      |res.value| == |decls| && forall j :: 0 <= j < |decls| ==> InitialGlobal(decls[j]) == Ok(res.value[j])
    ensures res.Err? ==>
      exists j :: 0 <= j < |decls| && InitialGlobal(decls[j]) == Err(res.error)
        && forall k :: 0 <= k < j ==> InitialGlobal(decls[k]).Ok?
  {
    var cells: seq<Cell> := [];
    for j := 0 to |decls|
      invariant |cells| == j
      invariant forall k :: 0 <= k < j ==> InitialGlobal(decls[k]) == Ok(cells[k])
    {
      var c := InitialGlobal(decls[j]);
      if c.Err? {
        return Err(c.error);
      }
      cells := cells + [c.value];
    }
    return Ok(cells);
  }

  /** The segments with their offsets before linking, or the first offset refused. */
  method InitialSegments(exprs: seq<seq<ConstOp>>) returns (res: Outcome<seq<Segment>>)
    ensures res.Ok? ==>
      |res.value| == |exprs| && forall j :: 0 <= j < |exprs| ==>
        res.value[j].expr == exprs[j] && ConstOffset(exprs[j]) == Ok(res.value[j].offset)
    ensures res.Err? ==> exists j :: 0 <= j < |exprs| && ConstOffset(exprs[j]) == Err(res.error)
  {
    var segs: seq<Segment> := [];
    for j := 0 to |exprs|
      invariant |segs| == j
      invariant forall k :: 0 <= k < j ==> segs[k].expr == exprs[k] && ConstOffset(exprs[k]) == Ok(segs[k].offset)
    {
      var o := ConstOffset(exprs[j]);
      if o.Err? {
        return Err(o.error);
      }
      segs := segs + [Segment(exprs[j], o.value)];
    }
    return Ok(segs);
  }

  /** A module's record, with every import slot unlinked and only the constant globals initialized. */
  datatype Built = Built(rt: ModuleRt, cells: seq<Cell>)

  method BuildModule(sec: ModuleSections) returns (res: Outcome<Built>)
    ensures res.Ok? ==> FuncsValid(sec)
    ensures res.Ok? ==>
      var rt := res.value.rt;
      rt.funcImports == UnlinkedSlots(sec.funcImports) && rt.tableImports == UnlinkedSlots(sec.tableImports)
      && rt.memoryImports == UnlinkedSlots(sec.memoryImports) && rt.globalImports == UnlinkedSlots(sec.globalImports)
      && rt.funcs == sec.funcTypes && rt.tables == sec.tables && rt.memories == sec.memories
      && |rt.globals| == |sec.globals| == |res.value.cells|
      && (forall j :: 0 <= j < |sec.globals| ==>
            rt.globals[j] == DefinedGlobal(sec.globals[j].t, sec.globals[j].mutable, sec.globals[j].init)
            && InitialGlobal(sec.globals[j]) == Ok(res.value.cells[j]))
      && |rt.elems| == |sec.elems| && |rt.datas| == |sec.datas|
      && (forall j :: 0 <= j < |sec.elems| ==> ConstOffset(sec.elems[j]) == Ok(rt.elems[j].offset))
      && (forall j :: 0 <= j < |sec.datas| ==> ConstOffset(sec.datas[j]) == Ok(rt.datas[j].offset))
    ensures res.Ok? ==> NothingLinked(res.value.rt)
    ensures res.Ok? && DeclsSorted(sec) ==> KindsSorted(res.value.rt)
    ensures !FuncsValid(sec) ==> res.Err?
  {
    var err := CheckFuncs(sec);
    if err.Some? {
      return Err(err.value);
    }
    var globals := seq(|sec.globals|, j requires 0 <= j < |sec.globals| =>
      DefinedGlobal(sec.globals[j].t, sec.globals[j].mutable, sec.globals[j].init));
    var cells := InitialGlobals(sec.globals);
    if cells.Err? {
      return Err(cells.error);
    }
    var elems := InitialSegments(sec.elems);
    if elems.Err? {
      return Err(elems.error);
    }
    var datas := InitialSegments(sec.datas);
    if datas.Err? {
      return Err(datas.error);
    }
    var rt := ModuleRt(UnlinkedSlots(sec.funcImports), UnlinkedSlots(sec.tableImports),
      UnlinkedSlots(sec.memoryImports), UnlinkedSlots(sec.globalImports),
      sec.funcTypes, sec.tables, sec.memories, globals, elems.value, datas.value);
    return Ok(Built(rt, cells.value));
  }

  /** A freshly built record satisfies the initialization invariant on its own. */
  lemma BuiltInv(mods: seq<ModuleRt>, cells: seq<seq<Cell>>)
    requires |cells| == |mods|
    requires forall e :: 0 <= e < |mods| ==> |cells[e]| == |mods[e].globals|
    requires forall e, j :: 0 <= e < |mods| && 0 <= j < |mods[e].globals| ==>
      InitialGlobal(GlobalDecl(mods[e].globals[j].kind, mods[e].globals[j].mutable, mods[e].globals[j].init))
        == Ok(cells[e][j])
    requires GlobalLinksValid(mods)
    ensures InitInv(mods, cells) && NoneInitializing(cells)
  {
    forall e, j | 0 <= e < |mods| && 0 <= j < |mods[e].globals| && cells[e][j].state == Initialized
      ensures InitHolds(mods, cells, GlobalRef(e, j))
    {
      var g := mods[e].globals[j];
      assert InitialGlobal(GlobalDecl(g.kind, g.mutable, g.init)) == Ok(cells[e][j]);
    }
  }

  /** The record of a module that is not a wasm file: nothing to import, define or initialize. */
  const EmptyModule := ModuleRt([], [], [], [], [], [], [], [], [], [])

  /**
   * The records of all modules, in registration order, with their first
   * cells; a module that is not a wasm file gets the empty record.
   */
  method BuildAll(sections: seq<Option<ModuleSections>>) returns (res: Outcome<(seq<ModuleRt>, seq<seq<Cell>>)>)
    requires forall e :: 0 <= e < |sections| && sections[e].Some? ==> DeclsSorted(sections[e].value)
    ensures res.Ok? ==> forall e :: 0 <= e < |sections| && sections[e].Some? ==> FuncsValid(sections[e].value)
    ensures res.Ok? ==>
      var (mods, cells) := res.value;
      |mods| == |sections| && CellsShaped(mods, cells)
      && (forall e :: 0 <= e < |sections| && sections[e].None? ==> mods[e] == EmptyModule)
      && (forall e :: 0 <= e < |mods| ==> KindsSorted(mods[e]) && NothingLinked(mods[e]))
      && forall e, j :: 0 <= e < |mods| && 0 <= j < |mods[e].globals| ==>
        InitialGlobal(GlobalDecl(mods[e].globals[j].kind, mods[e].globals[j].mutable, mods[e].globals[j].init))
          == Ok(cells[e][j])
  {
    var mods: seq<ModuleRt> := [];
    var cells: seq<seq<Cell>> := [];
    for e := 0 to |sections|
      invariant |mods| == e && CellsShaped(mods, cells)
      invariant forall i :: 0 <= i < e && sections[i].Some? ==> FuncsValid(sections[i].value)
      invariant forall i :: 0 <= i < e && sections[i].None? ==> mods[i] == EmptyModule
      invariant forall i :: 0 <= i < e ==> KindsSorted(mods[i]) && NothingLinked(mods[i])
      invariant forall i, j :: 0 <= i < e && 0 <= j < |mods[i].globals| ==>
        InitialGlobal(GlobalDecl(mods[i].globals[j].kind, mods[i].globals[j].mutable, mods[i].globals[j].init))
          == Ok(cells[i][j])
    {
      if sections[e].None? {
        mods := mods + [EmptyModule];
        cells := cells + [[]];
      } else {
        var b := BuildModule(sections[e].value);
        if b.Err? {
          return Err(b.error);
        }
        mods := mods + [b.value.rt];
        cells := cells + [b.value.cells];
      }
    }
    return Ok((mods, cells));
  }

  // ---------------------------------------------------------------------
  // The runtime

  /**
   * All module records, their globals' cells, the module names (record `e`
   * is registered under `names[e]`) and the export table.
   */
  class Runtime {
    const names: seq<string>
    const exports: Exports
    var mods: seq<ModuleRt>
    var cells: seq<seq<Cell>>

    constructor(names: seq<string>, exports: Exports)
      ensures this.names == names && this.exports == exports
      ensures mods == [] && cells == []
    {
      this.names := names;
      this.exports := exports;
      mods := [];
      cells := [];
    }

    // -------------------------------------------------------------------
    // Linking

    /** Link the import slots of kind `k` of module `m`, slot by slot. */
    method LinkKind(m: nat, k: ExternKind, ghost start: seq<ModuleRt>)
      requires m < |mods| && SameCounts(start, mods)
      modifies this`mods
      ensures SameCounts(start, mods)
      ensures mods == old(mods)[m := WithImports(old(mods)[m], k, LinkSlots(names, exports, start, ImportsOf(old(mods)[m], k)))]
    {
      var slots := ImportsOf(mods[m], k);
      var linked: seq<ImportSlot> := [];
      for j := 0 to |slots|
        invariant mods == old(mods)
        invariant |linked| == j
        invariant forall i :: 0 <= i < j ==> linked[i] == slots[i].(link := LinkFor(names, exports, start, slots[i]))
      {
        LinkForSameCounts(names, exports, start, mods, slots[j]);
        linked := linked + [slots[j].(link := LinkFor(names, exports, mods, slots[j]))];
      }
      assert |linked| == |slots|;
      assert linked == LinkSlots(names, exports, start, slots);
      mods := mods[m := WithImports(mods[m], k, linked)];
      assert Counts(mods[m]) == Counts(old(mods)[m]);
    }

    /** `resolve_imports_for_wasm_file_modules`: every module, every kind, every slot. */
    method ResolveImports()
      modifies this`mods
      ensures SameCounts(old(mods), mods)
      ensures forall e :: 0 <= e < |mods| ==> mods[e] == LinkModule(names, exports, old(mods), old(mods)[e])
    {
      ghost var start := mods;
      for m := 0 to |mods|
        invariant SameCounts(start, mods)
        invariant forall e :: 0 <= e < m ==> mods[e] == LinkModule(names, exports, start, start[e])
        invariant forall e :: m <= e < |mods| ==> mods[e] == start[e]
      {
        LinkKind(m, FuncExtern, start);
        LinkKind(m, TableExtern, start);
        LinkKind(m, MemoryExtern, start);
        LinkKind(m, GlobalExtern, start);
      }
    }

    // -------------------------------------------------------------------
    // Globals

    /**
     * `ensure_wasm1_local_defined_global_initialized`: an initialized
     * global is left alone, one in progress is a cycle, and otherwise the
     * global is marked in progress, its initializer is evaluated (through
     * the import chain for `global.get`) and it is marked initialized.
     */
    method EnsureInitialized(g: GlobalRef) returns (res: Outcome<()>)
      requires InitInv(mods, cells) && ValidGlobal(mods, g)
      modifies this`cells
      ensures CellsShaped(mods, cells)
      ensures old(cells)[g.owner][g.index].state == Initialized ==> res.Ok? && cells == old(cells)
      ensures old(cells)[g.owner][g.index].state == Initializing ==> res == Err(CircularInitialization) && cells == old(cells)
      ensures old(cells)[g.owner][g.index].state == Uninitialized && |mods[g.owner].globals[g.index].init| != 1 ==>
        res == Err(ConstExprNotSingle(|mods[g.owner].globals[g.index].init|))
      ensures (old(cells)[g.owner][g.index].state == Uninitialized && |mods[g.owner].globals[g.index].init| == 1
               && mods[g.owner].globals[g.index].init[0].OtherOp?) ==> res == Err(InvalidConstOp)
      ensures res.Ok? ==> InitInv(mods, cells) && cells[g.owner][g.index].state == Initialized
      ensures res.Ok? ==> Progress(old(cells), cells)
      decreases Pending(cells), 1
    {
      var c := cells[g.owner][g.index];
      if c.state == Initialized {
        return Ok(());
      }
      if c.state == Initializing {
        return Err(CircularInitialization);
      }
      var d := mods[g.owner].globals[g.index];
      ghost var before := cells;
      MarkShrinksPending(cells, g, c.(state := Initializing));
      cells := SetCell(cells, g, c.(state := Initializing));
      assert InitInv(mods, cells) by {
        InitInvStable(mods, before, cells);
      }
      if |d.init| != 1 {
        return Err(ConstExprNotSingle(|d.init|));
      }
      var word: nat;
      match d.init[0] {
        case GlobalGet(i) =>
          var r := ImportedValue(g, i);
          if r.Err? {
            return Err(r.error);
          }
          word := r.value;
        case OtherOp(_) =>
          return Err(InvalidConstOp);
        case _ =>
          word := StoreConst(d.init[0], cells[g.owner][g.index].word);
      }
      ghost var mid := cells;
      FinishKeepsInv(mods, mid, g, word);
      EnsureProgress(before, SetCell(before, g, c.(state := Initializing)), mid, g, Cell(Initialized, word));
      cells := SetCell(cells, g, Cell(Initialized, word));
      return Ok(());
    }

    /**
     * The `global.get i` initializer of global `g`, which is in progress:
     * the import must exist and be immutable, its chain must end at an
     * initialized defined global of the same kind, whose member is copied.
     */
    method ImportedValue(g: GlobalRef, i: nat) returns (res: Outcome<nat>)
      requires InitInv(mods, cells) && ValidGlobal(mods, g)
      requires cells[g.owner][g.index].state == Initializing
      requires mods[g.owner].globals[g.index].init == [GlobalGet(i)]
      modifies this`cells
      ensures CellsShaped(mods, cells)
      ensures i >= |mods[g.owner].globalImports| ==>
        res == Err(ImportIndexOutOfBounds(i, |mods[g.owner].globalImports|)) && cells == old(cells)
      ensures i < |mods[g.owner].globalImports| && mods[g.owner].globalImports[i].decl.mutable ==>
        res == Err(MutableImportInConstExpr) && cells == old(cells)
      ensures res.Ok? ==> InitInv(mods, cells) && Progress(old(cells), cells)
      ensures res.Ok? ==> InitHolds(mods, SetCell(cells, g, Cell(Initialized, res.value)), g)
      decreases Pending(cells), 3
    {
      var d := mods[g.owner].globals[g.index];
      var imports := mods[g.owner].globalImports;
      if i >= |imports| {
        return Err(ImportIndexOutOfBounds(i, |imports|));
      }
      if imports[i].decl.mutable {
        return Err(MutableImportInConstExpr);
      }
      var r := ResolveImportedGlobal(SlotRef(g.owner, i));
      if r.Err? {
        return Err(r.error);
      }
      var src := r.value;
      if mods[src.owner].globals[src.index].kind != d.kind {
        return Err(GlobalTypeMismatch);
      }
      if d.kind == V128 {
        return Err(UnsupportedGlobalType);
      }
      var word := CopyMember(d.kind, cells[g.owner][g.index].word, cells[src.owner][src.index].word);
      ImportedHolds(mods, cells, g, i, src, word);
      return Ok(word);
    }

    /**
     * `try_resolve_wasm1_imported_global_value`: walk the chain from
     * `start` with a set of visited slots, then make sure the defined
     * global it ends at is initialized.
     */
    method ResolveImportedGlobal(start: SlotRef) returns (res: Outcome<GlobalRef>)
      requires InitInv(mods, cells) && ValidSlot(mods, start)
      modifies this`cells
      ensures CellsShaped(mods, cells)
      ensures Follow(mods, start, {}).Err? ==> res == Follow(mods, start, {}) && cells == old(cells)
      ensures res.Ok? ==> res == Follow(mods, start, {})
      ensures res.Ok? ==> InitInv(mods, cells) && Progress(old(cells), cells)
      ensures res.Ok? ==> cells[res.value.owner][res.value.index].state == Initialized
      ensures Follow(mods, start, {}).Ok? && old(cells)[Follow(mods, start, {}).value.owner][Follow(mods, start, {}).value.index].state == Initialized
        ==> res.Ok? && cells == old(cells)
      decreases Pending(cells), 2
    {
      var visited: set<SlotRef> := {};
      var curr := start;
      while true
        invariant ValidSlot(mods, curr) && visited <= GlobalSlots(mods)
        invariant Follow(mods, start, {}) == Follow(mods, curr, visited)
        decreases GlobalSlots(mods) - visited
      {
        if curr in visited {
          return Err(CircularImport);
        }
        assert curr in GlobalSlots(mods);
        visited := visited + {curr};
        match mods[curr.owner].globalImports[curr.index].link {
          case Unlinked =>
            return Err(UnresolvedImport);
          case ToImport(e, j) =>
            curr := SlotRef(e, j);
          case ToDefined(e, j) =>
            var r := EnsureInitialized(GlobalRef(e, j));
            if r.Err? {
              return Err(r.error);
            }
            return Ok(GlobalRef(e, j));
        }
      }
    }

    /** Initialize the defined globals of module `e`, in order. */
    method FinalizeModule(e: nat) returns (res: Outcome<()>)
      requires InitInv(mods, cells) && NoneInitializing(cells) && e < |mods|
      modifies this`cells
      ensures CellsShaped(mods, cells)
      ensures res.Ok? ==> InitInv(mods, cells) && NoneInitializing(cells) && Keeps(old(cells), cells)
      ensures res.Ok? ==> forall j :: 0 <= j < |cells[e]| ==> cells[e][j].state == Initialized
    {
      ghost var c0 := cells;
      for j := 0 to |mods[e].globals|
        invariant InitInv(mods, cells) && NoneInitializing(cells) && Keeps(c0, cells)
        invariant forall j' :: 0 <= j' < j ==> cells[e][j'].state == Initialized
      {
        ghost var before := cells;
        var r := EnsureInitialized(GlobalRef(e, j));
        if r.Err? {
          return Err(r.error);
        }
        ProgressStep(c0, before, cells);
      }
      return Ok(());
    }

    /** `finalize_wasm1_globals_after_linking`: initialize every defined global of every module, in order. */
    method FinalizeGlobals() returns (res: Outcome<()>)
      requires InitInv(mods, cells) && NoneInitializing(cells)
      modifies this`cells
      ensures CellsShaped(mods, cells)
      ensures res.Ok? ==> InitInv(mods, cells) && AllInitialized(cells) && Keeps(old(cells), cells)
    {
      ghost var c0 := cells;
      for e := 0 to |mods|
        invariant InitInv(mods, cells) && NoneInitializing(cells) && Keeps(c0, cells)
        invariant forall i, j :: 0 <= i < e && 0 <= j < |cells[i]| ==> cells[i][j].state == Initialized
      {
        ghost var before := cells;
        var r := FinalizeModule(e);
        if r.Err? {
          return Err(r.error);
        }
        assert Keeps(c0, cells) by {
          assert Keeps(c0, before) && Keeps(before, cells);
        }
      }
      return Ok(());
    }

    // -------------------------------------------------------------------
    // Offsets

    /**
     * `try_eval_wasm1_const_expr_offset_after_linking`: an `i32.const`
     * offset as an unsigned value, or the i32 at the end of an immutable
     * import's chain; with every global initialized the walk changes no cell.
     */
    method OffsetOf(m: nat, x: seq<ConstOp>) returns (res: Outcome<nat>)
      requires InitInv(mods, cells) && AllInitialized(cells) && m < |mods|
      modifies this`cells
      ensures cells == old(cells)
      ensures res == OffsetAfterLinking(mods, cells, m, x)
    {
      if |x| != 1 {
        return Err(ConstExprNotSingle(|x|));
      }
      match x[0] {
        case I32Const(c) =>
          return Ok(U32(c));
        case GlobalGet(i) =>
          var imports := mods[m].globalImports;
          if i >= |imports| {
            return Err(ImportIndexOutOfBounds(i, |imports|));
          }
          if imports[i].decl.mutable {
            return Err(MutableImportInConstExpr);
          }
          var r := ResolveImportedGlobal(SlotRef(m, i));
          if r.Err? {
            return Err(r.error);
          }
          var d := r.value;
          if mods[d.owner].globals[d.index].kind != I32 {
            return Err(OffsetNotI32);
          }
          return Ok(Read32(cells[d.owner][d.index].word));
        case _ =>
          return Err(InvalidConstOp);
      }
    }

    /** The segments of module `m` with their offsets evaluated after linking, or the first refusal. */
    method RelocateSegments(m: nat, segs: seq<Segment>) returns (res: Outcome<seq<Segment>>)
      requires InitInv(mods, cells) && AllInitialized(cells) && m < |mods|
      modifies this`cells
      ensures cells == old(cells)
      ensures res.Ok? ==> Relocated(mods, cells, m, segs, res.value)
      ensures res.Err? ==> exists j :: 0 <= j < |segs| && OffsetAfterLinking(mods, cells, m, segs[j].expr) == Err(res.error)
    {
      var out: seq<Segment> := [];
      for j := 0 to |segs|
        invariant cells == old(cells)
        invariant |out| == j
        invariant forall k :: 0 <= k < j ==>
          out[k].expr == segs[k].expr && OffsetAfterLinking(mods, cells, m, segs[k].expr) == Ok(out[k].offset)
      {
        var o := OffsetOf(m, segs[j].expr);
        if o.Err? {
          return Err(o.error);
        }
        out := out + [Segment(segs[j].expr, o.value)];
      }
      return Ok(out);
    }

    /** `finalize_wasm1_offsets_after_linking`: every element and data segment of every module. */
    method FinalizeOffsets() returns (res: Outcome<()>)
      requires InitInv(mods, cells) && AllInitialized(cells)
      modifies this`mods, this`cells
      ensures cells == old(cells)
      ensures res.Err? ==> mods == old(mods)
      ensures res.Ok? ==> SameButSegments(old(mods), mods)
      ensures res.Ok? ==> forall e :: 0 <= e < |mods| ==>
        Relocated(old(mods), cells, e, old(mods)[e].elems, mods[e].elems)
        && Relocated(old(mods), cells, e, old(mods)[e].datas, mods[e].datas)
      ensures res.Ok? ==> InitInv(mods, cells) && OffsetsFinal(mods, cells)
    {
      var start := mods;
      var out: seq<ModuleRt> := [];
      for e := 0 to |start|
        invariant mods == start && cells == old(cells)
        invariant |out| == e
        invariant forall i :: 0 <= i < e ==>
          out[i] == start[i].(elems := out[i].elems, datas := out[i].datas)
          && Relocated(start, cells, i, start[i].elems, out[i].elems)
          && Relocated(start, cells, i, start[i].datas, out[i].datas)
      {
        var el := RelocateSegments(e, start[e].elems);
        if el.Err? {
          return Err(el.error);
        }
        var da := RelocateSegments(e, start[e].datas);
        if da.Err? {
          return Err(da.error);
        }
        out := out + [start[e].(elems := el.value, datas := da.value)];
      }
      RelocatedFinal(start, out, cells);
      mods := out;
      return Ok(());
    }

    // -------------------------------------------------------------------
    // The whole initialization

    /**
     * `initialize_runtime`: build a record per registered module, link the
     * imports, initialize every global and evaluate every segment offset.
     * `sections[e]` is the parsed wasm file registered under `names[e]`,
     * or `None` for a module of another kind.
     */
    method Initialize(sections: seq<Option<ModuleSections>>) returns (res: Outcome<()>)
      requires forall e :: 0 <= e < |sections| && sections[e].Some? ==> DeclsSorted(sections[e].value)
      modifies this`mods, this`cells
      ensures res.Ok? ==> |mods| == |sections| && CellsShaped(mods, cells)
      ensures res.Ok? ==> forall e :: 0 <= e < |sections| && sections[e].Some? ==> FuncsValid(sections[e].value)
      ensures res.Ok? ==> Linked(names, exports, mods) && GlobalLinksValid(mods)
      ensures res.Ok? ==> InitInv(mods, cells) && AllInitialized(cells) && OffsetsFinal(mods, cells)
    {
      var built := BuildAll(sections);
      if built.Err? {
        return Err(built.error);
      }
      mods, cells := built.value.0, built.value.1;
      ghost var start := mods;
      ResolveImports();
      LinkingLinks(names, exports, start, mods);
      assert forall e :: 0 <= e < |mods| ==> mods[e].globals == start[e].globals;
      BuiltInv(mods, cells);
      var g := FinalizeGlobals();
      if g.Err? {
        return Err(g.error);
      }
      ghost var linked := mods;
      var o := FinalizeOffsets();
      if o.Err? {
        return Err(o.error);
      }
      SegmentsKeepLinked(names, exports, linked, mods);
      SegmentsKeepCounts(linked, mods);
      return Ok(());
    }
  }
}
