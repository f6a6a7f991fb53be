/**
 * The values the runtime initializer works on: the per-module runtime
 * records (import slots, module-defined entities, segments), the
 * wasm1.0 constant expressions that give global initial values and
 * segment offsets, the import linker's choice of target, and the walk
 * along chains of imported globals.
 */
module InitModel {
  import opened Arith
  import opened WasmTypes

  const Two32: nat := 0x1_0000_0000
  const Two64: nat := 0x1_0000_0000_0000_0000

  /** Everything that stops the initializer (each ends the process in the source). */
  datatype InitError =
    | ConstExprNotSingle(count: nat)
    | InvalidConstOp
    | ImportIndexOutOfBounds(index: nat, count: nat)
    | MutableImportInConstExpr
    | CircularImport
    | UnresolvedImport
    | CircularInitialization
    | GlobalTypeMismatch
    | OffsetNotI32
    | FuncCodeCountMismatch
    | TypeIndexOutOfRange(func: nat)
    | UnsupportedGlobalType

  datatype Outcome<T> = Ok(value: T) | Err(error: InitError)

  // ---------------------------------------------------------------------
  // Constant expressions

  /** One decoded opcode of a constant expression; the float constants are their bit patterns. */
  datatype ConstOp =
    | I32Const(i32: int)
    | I64Const(i64: int)
    | F32Const(f32: nat)
    | F64Const(f64: nat)
    | GlobalGet(global: nat)
    | OtherOp(opcode: byte)

  /** `static_cast<uint32_t>` of a 32-bit value, widened without sign extension. */
  function U32(c: int): (r: nat)
    ensures r < Two32
    ensures 0 <= c < Two32 ==> r == c
    ensures -0x8000_0000 <= c < 0 ==> r == c + Two32
  {
    c % Two32
  }

  function U64(c: int): (r: nat)
    ensures r < Two64
    ensures 0 <= c < Two64 ==> r == c
    ensures -0x8000_0000_0000_0000 <= c < 0 ==> r == c + Two64
  {
    c % Two64
  }

  /**
   * A global's storage is a union; `word` is its low eight bytes, little
   * endian. The i32 and f32 members are the low four bytes.
   */
  function Read32(word: nat): (r: nat)
    ensures r < Two32
  {
    word % Two32
  }

  /** Writing a four-byte member keeps the upper four bytes of the union. */
  function Write32(word: nat, v: int): (r: nat)
    ensures Read32(r) == U32(v)
    ensures r / Two32 == word / Two32
  {
    word / Two32 * Two32 + U32(v)
  }

  /** The union member of kind `t` holds the same bits in both words. */
  predicate SameMember(t: ValType, word: nat, src: nat)
  {
    if t == I64 || t == F64 then U64(word) == U64(src) else Read32(word) == Read32(src)
  }

  /** Storing the constant of a single-opcode initializer into the union. */
  predicate HoldsConst(op: ConstOp, word: nat)
  {
    match op
    case I32Const(c) => Read32(word) == U32(c)
    case I64Const(c) => U64(word) == U64(c)
    case F32Const(b) => Read32(word) == U32(b)
    case F64Const(b) => U64(word) == U64(b)
    case _ => false
  }

  /** The member write that a constant opcode performs on the union word. */
  function StoreConst(op: ConstOp, word: nat): (r: nat)
    requires op.I32Const? || op.I64Const? || op.F32Const? || op.F64Const?
    ensures HoldsConst(op, r)
  {
    match op
    case I32Const(c) => Write32(word, c)
    case I64Const(c) => U64(c)
    case F32Const(b) => Write32(word, b)
    case F64Const(b) => U64(b)
  }

  /** Copying the member of kind `t` from `src` into `word`. */
  function CopyMember(t: ValType, word: nat, src: nat): (r: nat)
    ensures SameMember(t, r, src)
  {
    if t == I64 || t == F64 then U64(src) else Write32(word, Read32(src))
  }

  /**
   * A segment offset before linking: `i32.const c` gives `c` as an unsigned
   * 32-bit value, `global.get` a placeholder 0, and anything else stops.
   */
  function ConstOffset(e: seq<ConstOp>): (r: Outcome<nat>)
    ensures |e| != 1 ==> r == Err(ConstExprNotSingle(|e|))
    ensures r.Ok? <==> |e| == 1 && (e[0].I32Const? || e[0].GlobalGet?)
    ensures r.Ok? && e[0].I32Const? ==> r.value == U32(e[0].i32) && r.value < Two32
    ensures r.Ok? && e[0].GlobalGet? ==> r.value == 0
    ensures |e| == 1 && r.Err? ==> r.error == InvalidConstOp
  {
    if |e| != 1 then Err(ConstExprNotSingle(|e|))
    else
      match e[0]
      case I32Const(c) => Ok(U32(c))
      case GlobalGet(_) => Ok(0)
      case _ => Err(InvalidConstOp)
  }

  // ---------------------------------------------------------------------
  // Runtime records

  datatype ExternKind = FuncExtern | TableExtern | MemoryExtern | GlobalExtern

  datatype ImportDecl = ImportDecl(moduleName: string, externName: string, kind: ExternKind, mutable: bool)

  /**
   * Where an import slot leads: nowhere yet, to an import slot of the
   * exporting module (`is_opposite_side_imported`), or to one of its
   * module-defined entities.
   */
  datatype Link = Unlinked | ToImport(owner: nat, index: nat) | ToDefined(owner: nat, index: nat)

  datatype ImportSlot = ImportSlot(decl: ImportDecl, link: Link)

  datatype InitState = Uninitialized | Initializing | Initialized

  datatype DefinedGlobal = DefinedGlobal(kind: ValType, mutable: bool, init: seq<ConstOp>)

  /** The parts of a module-defined global that initialization changes. */
  datatype Cell = Cell(state: InitState, word: nat)

  datatype Segment = Segment(expr: seq<ConstOp>, offset: nat)

  /**
   * The runtime record of one module: import slots per kind, the type index
   * of each local function, table sizes and memory page counts, the
   * module-defined globals, and the element and data segments.
   */
  datatype ModuleRt = ModuleRt(
    funcImports: seq<ImportSlot>,
    tableImports: seq<ImportSlot>,
    memoryImports: seq<ImportSlot>,
    globalImports: seq<ImportSlot>,
    funcs: seq<nat>,
    tables: seq<nat>,
    memories: seq<nat>,
    globals: seq<DefinedGlobal>,
    elems: seq<Segment>,
    datas: seq<Segment>)

  function ImportsOf(rt: ModuleRt, k: ExternKind): seq<ImportSlot>
  {
    match k
    case FuncExtern => rt.funcImports
    case TableExtern => rt.tableImports
    case MemoryExtern => rt.memoryImports
    case GlobalExtern => rt.globalImports
  }

  function DefinedCount(rt: ModuleRt, k: ExternKind): nat
  {
    match k
    case FuncExtern => |rt.funcs|
    case TableExtern => |rt.tables|
    case MemoryExtern => |rt.memories|
    case GlobalExtern => |rt.globals|
  }

  // ---------------------------------------------------------------------
  // Building one module's record

  datatype GlobalDecl = GlobalDecl(t: ValType, mutable: bool, init: seq<ConstOp>)

  /** The parsed sections the record is built from. */
  datatype ModuleSections = ModuleSections(
    funcImports: seq<ImportDecl>,
    tableImports: seq<ImportDecl>,
    memoryImports: seq<ImportDecl>,
    globalImports: seq<ImportDecl>,
    typeCount: nat,
    funcTypes: seq<nat>,
    codeCount: nat,
    tables: seq<nat>,
    memories: seq<nat>,
    globals: seq<GlobalDecl>,
    elems: seq<seq<ConstOp>>,
    datas: seq<seq<ConstOp>>)

  function UnlinkedSlots(ds: seq<ImportDecl>): (r: seq<ImportSlot>)
    ensures |r| == |ds| && forall j :: 0 <= j < |ds| ==> r[j] == ImportSlot(ds[j], Unlinked)
  {
    seq(|ds|, j requires 0 <= j < |ds| => ImportSlot(ds[j], Unlinked))
  }

  /**
   * A global's record before linking: a constant initializer is stored at
   * once and the global is initialized; a `global.get` leaves it
   * uninitialized until after linking.
   */
  function InitialGlobal(d: GlobalDecl): (r: Outcome<Cell>)
    ensures r.Ok? <==> d.t != V128 && |d.init| == 1 && !d.init[0].OtherOp?
    ensures r.Ok? && d.init[0].GlobalGet? ==> r.value == Cell(Uninitialized, 0)
    ensures r.Ok? && !d.init[0].GlobalGet? ==> r.value.state == Initialized && HoldsConst(d.init[0], r.value.word)
    ensures d.t == V128 ==> r == Err(UnsupportedGlobalType)
  {
    if d.t == V128 then Err(UnsupportedGlobalType)
    else if |d.init| != 1 then Err(ConstExprNotSingle(|d.init|))
    else
      match d.init[0]
      case GlobalGet(_) => Ok(Cell(Uninitialized, 0))
      case OtherOp(_) => Err(InvalidConstOp)
      case _ => Ok(Cell(Initialized, StoreConst(d.init[0], 0)))
  }

  /** Every local function has code and a type index below the type count. */
  predicate FuncsValid(sec: ModuleSections)
  {
    |sec.funcTypes| == sec.codeCount && forall i :: 0 <= i < |sec.funcTypes| ==> sec.funcTypes[i] < sec.typeCount
  }

  // ---------------------------------------------------------------------
  // Linking

  /** The first module registered under `name`, searching from `from`. */
  function FindModule(names: seq<string>, name: string, from: nat): (r: Option<nat>)
    ensures r.Some? ==> from <= r.value < |names| && names[r.value] == name
    ensures r.Some? ==> forall i :: from <= i < r.value ==> names[i] != name
    ensures r.None? ==> forall i :: from <= i < |names| ==> names[i] != name
    decreases |names| - from
  {
    if from >= |names| then None
    else if names[from] == name then Some(from)
    else FindModule(names, name, from + 1)
  }

  /** What an export of a module says, as the export table records it. */
  datatype Export = Export(kind: ExternKind, index: nat)

  datatype ExportRecord = ExportRecord(fromWasmFile: bool, binfmt: nat, target: Option<Export>)

  type Exports = map<string, map<string, ExportRecord>>

  /** The export this import names, when it is a version-1 wasm export of the same kind. */
  function ExportFor(exports: Exports, d: ImportDecl): Option<nat>
  {
    if d.moduleName !in exports || d.externName !in exports[d.moduleName] then None
    else
      var rec := exports[d.moduleName][d.externName];
      if !rec.fromWasmFile || rec.binfmt != 1 || rec.target.None? || rec.target.value.kind != d.kind then None
      else Some(rec.target.value.index)
  }

  /**
   * The link an import slot gets: an exported index below the exporter's
   * import count names that import slot, a larger one the module-defined
   * entity `index - imports`; any lookup that fails, and an index past the
   * defined entities, leaves the slot as it was.
   */
  function LinkFor(names: seq<string>, exports: Exports, mods: seq<ModuleRt>, slot: ImportSlot): (l: Link)
    ensures l != slot.link ==>
      ExportFor(exports, slot.decl).Some? && FindModule(names, slot.decl.moduleName, 0).Some?
      && FindModule(names, slot.decl.moduleName, 0).value < |mods|
    ensures
      var e := FindModule(names, slot.decl.moduleName, 0);
      var x := ExportFor(exports, slot.decl);
      x.Some? && e.Some? && e.value < |mods| ==>
        var count := |ImportsOf(mods[e.value], slot.decl.kind)|;
        l == (if x.value < count then ToImport(e.value, x.value)
              else if x.value - count < DefinedCount(mods[e.value], slot.decl.kind) then ToDefined(e.value, x.value - count)
              else slot.link)
  {
    match ExportFor(exports, slot.decl)
    case None => slot.link
    case Some(idx) =>
      match FindModule(names, slot.decl.moduleName, 0)
      case None => slot.link
      case Some(e) =>
        if e >= |mods| then slot.link
        else
          var count := |ImportsOf(mods[e], slot.decl.kind)|;
          if idx < count then ToImport(e, idx)
          else if idx - count < DefinedCount(mods[e], slot.decl.kind) then ToDefined(e, idx - count)
          else slot.link
  }

  /** A link of an import of kind `k` names an existing slot or entity of that kind. */
  predicate LinkValid(mods: seq<ModuleRt>, k: ExternKind, l: Link)
  {
    match l
    case Unlinked => true
    case ToImport(e, i) => e < |mods| && i < |ImportsOf(mods[e], k)|
    case ToDefined(e, i) => e < |mods| && i < DefinedCount(mods[e], k)
  }

  /** Each slot of each module sits in the vector of its own kind. */
  predicate SlotsOfKind(slots: seq<ImportSlot>, k: ExternKind)
  {
    forall j :: 0 <= j < |slots| ==> slots[j].decl.kind == k
  }

  /** The import and entity counts of two lists of records agree. */
  predicate SameCounts(a: seq<ModuleRt>, b: seq<ModuleRt>)
  {
    |a| == |b| && forall e :: 0 <= e < |a| ==> Counts(a[e]) == Counts(b[e])
  }

  function Counts(rt: ModuleRt): seq<nat>
  {
    [|rt.funcImports|, |rt.tableImports|, |rt.memoryImports|, |rt.globalImports|,
     |rt.funcs|, |rt.tables|, |rt.memories|, |rt.globals|]
  }

  lemma CountsAgree(a: ModuleRt, b: ModuleRt, k: ExternKind)
    requires Counts(a) == Counts(b)
    ensures |ImportsOf(a, k)| == |ImportsOf(b, k)| && DefinedCount(a, k) == DefinedCount(b, k)
  {
    assert Counts(a)[0] == Counts(b)[0] && Counts(a)[1] == Counts(b)[1];
    assert Counts(a)[2] == Counts(b)[2] && Counts(a)[3] == Counts(b)[3];
    assert Counts(a)[4] == Counts(b)[4] && Counts(a)[5] == Counts(b)[5];
    assert Counts(a)[6] == Counts(b)[6] && Counts(a)[7] == Counts(b)[7];
  }

  /** The linker only reads counts, so linking against records with the same counts gives the same link. */
  lemma LinkForSameCounts(names: seq<string>, exports: Exports, a: seq<ModuleRt>, b: seq<ModuleRt>, slot: ImportSlot)
    requires SameCounts(a, b)
    ensures LinkFor(names, exports, a, slot) == LinkFor(names, exports, b, slot)
  {
    var e := FindModule(names, slot.decl.moduleName, 0);
    if e.Some? && e.value < |a| {
      CountsAgree(a[e.value], b[e.value], slot.decl.kind);
    }
  }

  /** Every link the linker produces is valid, and a valid link it keeps stays valid. */
  lemma LinkForValid(names: seq<string>, exports: Exports, mods: seq<ModuleRt>, slot: ImportSlot)
    requires LinkValid(mods, slot.decl.kind, slot.link)
    ensures LinkValid(mods, slot.decl.kind, LinkFor(names, exports, mods, slot))
  {
  }

  /** Linking a slot a second time changes nothing. */
  lemma LinkForIdempotent(names: seq<string>, exports: Exports, mods: seq<ModuleRt>, slot: ImportSlot)
    ensures
      var once := slot.(link := LinkFor(names, exports, mods, slot));
      LinkFor(names, exports, mods, once) == once.link
  {
  }

  function LinkSlots(names: seq<string>, exports: Exports, mods: seq<ModuleRt>, slots: seq<ImportSlot>): (r: seq<ImportSlot>)
    ensures |r| == |slots|
    ensures forall j :: 0 <= j < |slots| ==>
      r[j].decl == slots[j].decl && r[j].link == LinkFor(names, exports, mods, slots[j])
  {
    seq(|slots|, j requires 0 <= j < |slots| => slots[j].(link := LinkFor(names, exports, mods, slots[j])))
  }

  function WithImports(rt: ModuleRt, k: ExternKind, slots: seq<ImportSlot>): (r: ModuleRt)
    ensures ImportsOf(r, k) == slots
    ensures forall k' :: k' != k ==> ImportsOf(r, k') == ImportsOf(rt, k')
    ensures |slots| == |ImportsOf(rt, k)| ==> Counts(r) == Counts(rt)
    ensures r.(funcImports := [], tableImports := [], memoryImports := [], globalImports := [])
         == rt.(funcImports := [], tableImports := [], memoryImports := [], globalImports := [])
  {
    match k
    case FuncExtern => rt.(funcImports := slots)
    case TableExtern => rt.(tableImports := slots)
    case MemoryExtern => rt.(memoryImports := slots)
    case GlobalExtern => rt.(globalImports := slots)
  }

  /** The record of module `rt` after all its imports are linked against `mods`. */
  function LinkModule(names: seq<string>, exports: Exports, mods: seq<ModuleRt>, rt: ModuleRt): (r: ModuleRt)
    ensures Counts(r) == Counts(rt)
    ensures r.(funcImports := [], tableImports := [], memoryImports := [], globalImports := [])
         == rt.(funcImports := [], tableImports := [], memoryImports := [], globalImports := [])
  {
    rt.(funcImports := LinkSlots(names, exports, mods, rt.funcImports),
        tableImports := LinkSlots(names, exports, mods, rt.tableImports),
        memoryImports := LinkSlots(names, exports, mods, rt.memoryImports),
        globalImports := LinkSlots(names, exports, mods, rt.globalImports))
  }

  /** The parser hands over one import vector per kind, each holding imports of that kind. */
  predicate DeclsSorted(sec: ModuleSections)
  {
    (forall j :: 0 <= j < |sec.funcImports| ==> sec.funcImports[j].kind == FuncExtern)
    && (forall j :: 0 <= j < |sec.tableImports| ==> sec.tableImports[j].kind == TableExtern)
    && (forall j :: 0 <= j < |sec.memoryImports| ==> sec.memoryImports[j].kind == MemoryExtern)
    && (forall j :: 0 <= j < |sec.globalImports| ==> sec.globalImports[j].kind == GlobalExtern)
  }

  predicate KindsSorted(rt: ModuleRt)
  {
    forall k :: SlotsOfKind(ImportsOf(rt, k), k)
  }

  predicate NothingLinked(rt: ModuleRt)
  {
    forall k, j :: 0 <= j < |ImportsOf(rt, k)| ==> ImportsOf(rt, k)[j].link == Unlinked
  }

  /** Every import slot of every record carries the link the linker gives it against these records. */
  predicate Linked(names: seq<string>, exports: Exports, mods: seq<ModuleRt>)
  {
    forall e, k, j :: 0 <= e < |mods| && 0 <= j < |ImportsOf(mods[e], k)| ==>
      ImportsOf(mods[e], k)[j].link == LinkFor(names, exports, mods, ImportsOf(mods[e], k)[j])
  }

  lemma ImportsOfLinked(names: seq<string>, exports: Exports, mods: seq<ModuleRt>, rt: ModuleRt, k: ExternKind)
    ensures ImportsOf(LinkModule(names, exports, mods, rt), k) == LinkSlots(names, exports, mods, ImportsOf(rt, k))
  {
  }

  /** A link depends on the records only through their counts. */
  lemma LinkValidSameCounts(a: seq<ModuleRt>, b: seq<ModuleRt>, k: ExternKind, l: Link)
    requires SameCounts(a, b) && LinkValid(a, k, l)
    ensures LinkValid(b, k, l)
  {
    match l
    case Unlinked =>
    case ToImport(e, i) => CountsAgree(a[e], b[e], k);
    case ToDefined(e, i) => CountsAgree(a[e], b[e], k);
  }

  /** One slot after linking: linked as the linker would link it again, of its vector's kind, and valid. */
  lemma LinkedSlot(names: seq<string>, exports: Exports, start: seq<ModuleRt>, mods: seq<ModuleRt>, e: nat, k: ExternKind, j: nat)
    requires SameCounts(start, mods) && e < |mods|
    requires mods[e] == LinkModule(names, exports, start, start[e])
    requires KindsSorted(start[e]) && NothingLinked(start[e]) && j < |ImportsOf(mods[e], k)|
    ensures ImportsOf(mods[e], k)[j].link == LinkFor(names, exports, mods, ImportsOf(mods[e], k)[j])
    ensures ImportsOf(mods[e], k)[j].decl.kind == k
    ensures LinkValid(mods, k, ImportsOf(mods[e], k)[j].link)
  {
    ImportsOfLinked(names, exports, start, start[e], k);
    var slot := ImportsOf(start[e], k)[j];
    assert SlotsOfKind(ImportsOf(start[e], k), k);
    var once := slot.(link := LinkFor(names, exports, start, slot));
    assert ImportsOf(mods[e], k)[j] == once;
    LinkForIdempotent(names, exports, start, slot);
    LinkForSameCounts(names, exports, start, mods, once);
    LinkForValid(names, exports, start, slot);
    LinkValidSameCounts(start, mods, k, once.link);
  }

  /**
   * Linking every record against the unlinked records leaves every slot
   * linked as the linker would link it again, every imported-global link
   * valid, and the slots in the vectors of their kinds.
   */
  lemma LinkingLinks(names: seq<string>, exports: Exports, start: seq<ModuleRt>, mods: seq<ModuleRt>)
    requires SameCounts(start, mods)
    requires forall e :: 0 <= e < |mods| ==> mods[e] == LinkModule(names, exports, start, start[e])
    requires forall e :: 0 <= e < |start| ==> KindsSorted(start[e]) && NothingLinked(start[e])
    ensures Linked(names, exports, mods) && GlobalLinksValid(mods)
    ensures forall e :: 0 <= e < |mods| ==> KindsSorted(mods[e])
  {
    forall e, k, j | 0 <= e < |mods| && 0 <= j < |ImportsOf(mods[e], k)|
      ensures ImportsOf(mods[e], k)[j].link == LinkFor(names, exports, mods, ImportsOf(mods[e], k)[j])
    {
      LinkedSlot(names, exports, start, mods, e, k, j);
    }
    forall e, j | 0 <= e < |mods| && 0 <= j < |mods[e].globalImports|
      ensures LinkValid(mods, GlobalExtern, mods[e].globalImports[j].link)
    {
      LinkedSlot(names, exports, start, mods, e, GlobalExtern, j);
    }
    forall e | 0 <= e < |mods| ensures KindsSorted(mods[e]) {
      forall k ensures SlotsOfKind(ImportsOf(mods[e], k), k) {
        forall j | 0 <= j < |ImportsOf(mods[e], k)| ensures ImportsOf(mods[e], k)[j].decl.kind == k {
          LinkedSlot(names, exports, start, mods, e, k, j);
        }
      }
    }
  }

  // ---------------------------------------------------------------------
  // Imported-global chains

  datatype SlotRef = SlotRef(owner: nat, index: nat)
  datatype GlobalRef = GlobalRef(owner: nat, index: nat)

  predicate ValidSlot(mods: seq<ModuleRt>, s: SlotRef)
  {
    s.owner < |mods| && s.index < |mods[s.owner].globalImports|
  }

  predicate ValidGlobal(mods: seq<ModuleRt>, g: GlobalRef)
  {
    g.owner < |mods| && g.index < |mods[g.owner].globals|
  }

  /** Every imported-global slot links to an existing global slot or global. */
  predicate GlobalLinksValid(mods: seq<ModuleRt>)
  {
    forall e, j :: 0 <= e < |mods| && 0 <= j < |mods[e].globalImports| ==>
      LinkValid(mods, GlobalExtern, mods[e].globalImports[j].link)
  }

  function GlobalSlots(mods: seq<ModuleRt>): set<SlotRef>
  {
    set e, j | 0 <= e < |mods| && 0 <= j < |mods[e].globalImports| :: SlotRef(e, j)
  }

  /**
   * The walk of `try_resolve_wasm1_imported_global_value`: follow links
   * from slot to slot, remembering the slots seen; seeing one again is a
   * cycle, an unlinked slot is unresolved, and a link to a defined global
   * ends the walk.
   */
  function Follow(mods: seq<ModuleRt>, at: SlotRef, visited: set<SlotRef>): (r: Outcome<GlobalRef>)
    requires GlobalLinksValid(mods) && ValidSlot(mods, at)
    ensures r.Ok? ==> ValidGlobal(mods, r.value)
    ensures r.Err? ==> r.error == CircularImport || r.error == UnresolvedImport
    ensures at in visited ==> r == Err(CircularImport)
    decreases GlobalSlots(mods) - visited
  {
    if at in visited then Err(CircularImport)
    else
      match mods[at.owner].globalImports[at.index].link
      case Unlinked => Err(UnresolvedImport)
      case ToDefined(e, j) => Ok(GlobalRef(e, j))
      case ToImport(e, j) =>
        assert at in GlobalSlots(mods);
        Follow(mods, SlotRef(e, j), visited + {at})
  }

  /**
   * The same walk without cycle detection, for at most `fuel` links; `None`
   * means it was still going.
   */
  function Walk(mods: seq<ModuleRt>, at: SlotRef, fuel: nat): (r: Option<Outcome<GlobalRef>>)
    requires GlobalLinksValid(mods) && ValidSlot(mods, at)
    decreases fuel
  {
    if fuel == 0 then None
    else
      match mods[at.owner].globalImports[at.index].link
      case Unlinked => Some(Err(UnresolvedImport))
      case ToDefined(e, j) => Some(Ok(GlobalRef(e, j)))
      case ToImport(e, j) => Walk(mods, SlotRef(e, j), fuel - 1)
  }

  /** Whatever the cycle-detecting walk finds other than a cycle, the plain walk finds too. */
  lemma {:induction false} FollowIsWalk(mods: seq<ModuleRt>, at: SlotRef, visited: set<SlotRef>)
    requires GlobalLinksValid(mods) && ValidSlot(mods, at)
    requires Follow(mods, at, visited) != Err(CircularImport)
    ensures exists fuel: nat :: Walk(mods, at, fuel) == Some(Follow(mods, at, visited))
    decreases GlobalSlots(mods) - visited
  {
    match mods[at.owner].globalImports[at.index].link
    case Unlinked =>
      assert Walk(mods, at, 1) == Some(Follow(mods, at, visited));
    case ToDefined(e, j) =>
      assert Walk(mods, at, 1) == Some(Follow(mods, at, visited));
    case ToImport(e, j) =>
      assert at in GlobalSlots(mods);
      var next := SlotRef(e, j);
      FollowIsWalk(mods, next, visited + {at});
      var fuel: nat :| Walk(mods, next, fuel) == Some(Follow(mods, next, visited + {at}));
      assert Walk(mods, at, fuel + 1) == Walk(mods, next, fuel);
  }

  /** When the plain walk ends, the cycle-detecting walk ends the same way unless it stops on a cycle. */
  lemma {:induction false} WalkIsFollow(mods: seq<ModuleRt>, at: SlotRef, visited: set<SlotRef>, fuel: nat)
    requires GlobalLinksValid(mods) && ValidSlot(mods, at)
    requires Walk(mods, at, fuel).Some?
    ensures Follow(mods, at, visited) == Walk(mods, at, fuel).value || Follow(mods, at, visited) == Err(CircularImport)
    decreases fuel
  {
    if at !in visited {
      match mods[at.owner].globalImports[at.index].link
      case Unlinked =>
      case ToDefined(e, j) =>
      case ToImport(e, j) =>
        assert at in GlobalSlots(mods);
        WalkIsFollow(mods, SlotRef(e, j), visited + {at}, fuel - 1);
    }
  }

  /** A slot linked to itself is reported as a cycle. */
  lemma SelfLinkIsCycle(mods: seq<ModuleRt>, at: SlotRef)
    requires GlobalLinksValid(mods) && ValidSlot(mods, at)
    requires mods[at.owner].globalImports[at.index].link == ToImport(at.owner, at.index)
    ensures Follow(mods, at, {}) == Err(CircularImport)
  {
    assert Follow(mods, at, {}) == Follow(mods, at, {at});
  }

  /** The walk reads only the imported-global links. */
  lemma {:induction false} FollowSameLinks(a: seq<ModuleRt>, b: seq<ModuleRt>, at: SlotRef, visited: set<SlotRef>)
    requires GlobalLinksValid(a) && ValidSlot(a, at)
    requires |a| == |b| && forall e :: 0 <= e < |a| ==> a[e].globalImports == b[e].globalImports
    requires forall e :: 0 <= e < |a| ==> |a[e].globals| == |b[e].globals|
    ensures GlobalLinksValid(b) && ValidSlot(b, at)
    ensures Follow(a, at, visited) == Follow(b, at, visited)
    decreases GlobalSlots(a) - visited
  {
    assert GlobalSlots(a) == GlobalSlots(b);
    if at !in visited {
      match a[at.owner].globalImports[at.index].link
      case Unlinked =>
      case ToDefined(e, j) =>
      case ToImport(e, j) =>
        assert at in GlobalSlots(a);
        FollowSameLinks(a, b, SlotRef(e, j), visited + {at});
    }
  }

  // ---------------------------------------------------------------------
  // What an initialized global holds

  predicate CellsShaped(mods: seq<ModuleRt>, cells: seq<seq<Cell>>)
  {
    |cells| == |mods| && forall e :: 0 <= e < |mods| ==> |cells[e]| == |mods[e].globals|
  }

  /**
   * The value an initialized global must hold: the constant of its single
   * opcode, or for `global.get i` the same member as the defined global at
   * the end of import `i`'s chain, which is initialized and of the same
   * kind, which is not a vector; the import itself must be immutable.
   */
  predicate InitHolds(mods: seq<ModuleRt>, cells: seq<seq<Cell>>, g: GlobalRef)
    requires GlobalLinksValid(mods) && CellsShaped(mods, cells) && ValidGlobal(mods, g)
  {
    var d := mods[g.owner].globals[g.index];
    var c := cells[g.owner][g.index];
    |d.init| == 1
    && match d.init[0]
       case GlobalGet(i) =>
         var imports := mods[g.owner].globalImports;
         d.kind != V128 && i < |imports| && !imports[i].decl.mutable
         && var f := Follow(mods, SlotRef(g.owner, i), {});
            f.Ok? && cells[f.value.owner][f.value.index].state == Initialized
            && mods[f.value.owner].globals[f.value.index].kind == d.kind
            && SameMember(d.kind, c.word, cells[f.value.owner][f.value.index].word)
       case _ => HoldsConst(d.init[0], c.word)
  }

  /** The invariant of initialization: every global marked initialized holds its value. */
  predicate InitInv(mods: seq<ModuleRt>, cells: seq<seq<Cell>>)
  {
    GlobalLinksValid(mods) && CellsShaped(mods, cells)
    && forall e, j :: 0 <= e < |mods| && 0 <= j < |mods[e].globals| && cells[e][j].state == Initialized ==>
      InitHolds(mods, cells, GlobalRef(e, j))
  }

  predicate AllInitialized(cells: seq<seq<Cell>>)
  {
    forall e, j :: 0 <= e < |cells| && 0 <= j < |cells[e]| ==> cells[e][j].state == Initialized
  }

  predicate NoneInitializing(cells: seq<seq<Cell>>)
  {
    forall e, j :: 0 <= e < |cells| && 0 <= j < |cells[e]| ==> cells[e][j].state != Initializing
  }

  /** From `a` to `b` every initialized global kept its cell. */
  predicate Keeps(a: seq<seq<Cell>>, b: seq<seq<Cell>>)
  {
    |a| == |b|
    && (forall e :: 0 <= e < |a| ==> |a[e]| == |b[e]|)
    && forall e, j :: 0 <= e < |a| && 0 <= j < |a[e]| && a[e][j].state == Initialized ==> b[e][j] == a[e][j]
  }

  /** Progress from a state with nothing in progress keeps the earlier cells and leaves nothing in progress. */
  lemma ProgressStep(a: seq<seq<Cell>>, b: seq<seq<Cell>>, c: seq<seq<Cell>>)
    requires Keeps(a, b) && Progress(b, c) && NoneInitializing(b)
    ensures Keeps(a, c) && NoneInitializing(c)
  {
  }

  /**
   * From `a` to `b` initialization only made progress: initialized globals
   * kept their cells, and exactly the same globals are in progress.
   */
  predicate Progress(a: seq<seq<Cell>>, b: seq<seq<Cell>>)
  {
    Keeps(a, b)
    && forall e, j :: 0 <= e < |a| && 0 <= j < |a[e]| ==>
      (a[e][j].state == Initializing <==> b[e][j].state == Initializing)
  }

  /** The globals still waiting for their initializer. */
  function Pending(cells: seq<seq<Cell>>): set<GlobalRef>
  {
    set e, j | 0 <= e < |cells| && 0 <= j < |cells[e]| && cells[e][j].state == Uninitialized :: GlobalRef(e, j)
  }

  function SetCell(cells: seq<seq<Cell>>, g: GlobalRef, c: Cell): (r: seq<seq<Cell>>)
    requires g.owner < |cells| && g.index < |cells[g.owner]|
    ensures |r| == |cells| && forall e :: 0 <= e < |cells| ==> |r[e]| == |cells[e]|
    ensures r[g.owner][g.index] == c
    ensures forall e, j :: 0 <= e < |cells| && 0 <= j < |cells[e]| && GlobalRef(e, j) != g ==> r[e][j] == cells[e][j]
  {
    cells[g.owner := cells[g.owner][g.index := c]]
  }

  /** Starting an uninitialized global's initializer takes it off the pending set. */
  lemma MarkShrinksPending(cells: seq<seq<Cell>>, g: GlobalRef, c: Cell)
    requires g.owner < |cells| && g.index < |cells[g.owner]|
    requires cells[g.owner][g.index].state == Uninitialized && c.state != Uninitialized
    ensures Pending(SetCell(cells, g, c)) < Pending(cells)
  {
    var r := SetCell(cells, g, c);
    assert g in Pending(cells) && g !in Pending(r);
    forall x | x in Pending(r) ensures x in Pending(cells) {
      assert r[x.owner][x.index] == cells[x.owner][x.index];
    }
  }

  /** An initialized global keeps its value as long as initialization only progresses. */
  lemma InitHoldsStable(mods: seq<ModuleRt>, a: seq<seq<Cell>>, b: seq<seq<Cell>>, g: GlobalRef)
    requires GlobalLinksValid(mods) && CellsShaped(mods, a) && ValidGlobal(mods, g)
    requires Keeps(a, b) && a[g.owner][g.index].state == Initialized
    requires InitHolds(mods, a, g)
    ensures CellsShaped(mods, b) && InitHolds(mods, b, g)
  {
  }

  lemma InitInvStable(mods: seq<ModuleRt>, a: seq<seq<Cell>>, b: seq<seq<Cell>>)
    requires InitInv(mods, a) && Keeps(a, b)
    requires forall e, j :: 0 <= e < |mods| && 0 <= j < |mods[e].globals| && b[e][j].state == Initialized ==>
      a[e][j].state == Initialized
    ensures InitInv(mods, b)
  {
    forall e, j | 0 <= e < |mods| && 0 <= j < |mods[e].globals| && b[e][j].state == Initialized
      ensures InitHolds(mods, b, GlobalRef(e, j))
    {
      InitHoldsStable(mods, a, b, GlobalRef(e, j));
    }
  }

  /**
   * Finishing global `g`, which was in progress, keeps the invariant when
   * the value it gets satisfies its initializer.
   */
  lemma FinishKeepsInv(mods: seq<ModuleRt>, mid: seq<seq<Cell>>, g: GlobalRef, w: nat)
    requires InitInv(mods, mid) && ValidGlobal(mods, g) && mid[g.owner][g.index].state == Initializing
    requires InitHolds(mods, SetCell(mid, g, Cell(Initialized, w)), g)
    ensures InitInv(mods, SetCell(mid, g, Cell(Initialized, w)))
  {
    var fin: seq<seq<Cell>> := SetCell(mid, g, Cell(Initialized, w));
    forall e: nat, j: nat | 0 <= e < |mods| && 0 <= j < |mods[e].globals| && fin[e][j].state == Initialized
      ensures InitHolds(mods, fin, GlobalRef(e, j))
    {
      if GlobalRef(e, j) != g {
        InitHoldsStable(mods, mid, fin, GlobalRef(e, j));
      }
    }
  }

  /**
   * A global in progress whose `global.get i` chain ends at another,
   * initialized global of its kind holds its initializer once it takes
   * a copy of that global's member.
   */
  lemma ImportedHolds(mods: seq<ModuleRt>, mid: seq<seq<Cell>>, g: GlobalRef, i: nat, src: GlobalRef, w: nat)
    requires InitInv(mods, mid) && ValidGlobal(mods, g) && mid[g.owner][g.index].state == Initializing
    requires mods[g.owner].globals[g.index].init == [GlobalGet(i)] && mods[g.owner].globals[g.index].kind != V128
    requires i < |mods[g.owner].globalImports| && !mods[g.owner].globalImports[i].decl.mutable
    requires Follow(mods, SlotRef(g.owner, i), {}) == Ok(src)
    requires mid[src.owner][src.index].state == Initialized
    requires mods[src.owner].globals[src.index].kind == mods[g.owner].globals[g.index].kind
    requires w == CopyMember(mods[g.owner].globals[g.index].kind, mid[g.owner][g.index].word, mid[src.owner][src.index].word)
    ensures InitHolds(mods, SetCell(mid, g, Cell(Initialized, w)), g)
  {
    var fin := SetCell(mid, g, Cell(Initialized, w));
    assert src != g;
    assert fin[src.owner][src.index] == mid[src.owner][src.index];
  }

  /**
   * Marking `g` in progress, letting nested initialization progress, and
   * finishing `g` is progress overall.
   */
  lemma EnsureProgress(a: seq<seq<Cell>>, mark: seq<seq<Cell>>, mid: seq<seq<Cell>>, g: GlobalRef, c: Cell)
    requires g.owner < |a| && g.index < |a[g.owner]| && a[g.owner][g.index].state == Uninitialized
    requires mark == SetCell(a, g, a[g.owner][g.index].(state := Initializing))
    requires Progress(mark, mid) && c.state == Initialized
    ensures Progress(a, SetCell(mid, g, c))
  {
  }

  // ---------------------------------------------------------------------
  // Segment offsets after linking

  /**
   * A segment offset once all globals are initialized: `global.get i`
   * needs `i` below the imported-global count and an immutable import, and
   * the global at the end of the chain must be an i32, whose four bytes
   * are then taken as an unsigned offset.
   */
  function OffsetAfterLinking(mods: seq<ModuleRt>, cells: seq<seq<Cell>>, m: nat, e: seq<ConstOp>): (r: Outcome<nat>)
    requires GlobalLinksValid(mods) && CellsShaped(mods, cells) && m < |mods|
    ensures r.Ok? ==> r.value < Two32
    ensures |e| == 1 && e[0].I32Const? ==> r == ConstOffset(e)
    ensures |e| != 1 || !(e[0].I32Const? || e[0].GlobalGet?) ==> r == ConstOffset(e)
    ensures r.Ok? && e[0].GlobalGet? ==>
      var i := e[0].global;
      i < |mods[m].globalImports| && !mods[m].globalImports[i].decl.mutable
      && var f := Follow(mods, SlotRef(m, i), {});
         f.Ok? && mods[f.value.owner].globals[f.value.index].kind == I32
         && r.value == Read32(cells[f.value.owner][f.value.index].word)
  {
    if |e| != 1 then Err(ConstExprNotSingle(|e|))
    else
      match e[0]
      case I32Const(c) => Ok(U32(c))
      case GlobalGet(i) =>
        var imports := mods[m].globalImports;
        if i >= |imports| then Err(ImportIndexOutOfBounds(i, |imports|))
        else if imports[i].decl.mutable then Err(MutableImportInConstExpr)
        else
          (match Follow(mods, SlotRef(m, i), {})
           case Err(err) => Err(err)
           case Ok(d) =>
             if mods[d.owner].globals[d.index].kind != I32 then Err(OffsetNotI32)
             else Ok(Read32(cells[d.owner][d.index].word)))
      case _ => Err(InvalidConstOp)
  }

  /**
   * An offset read through an import chain that ends at an initialized
   * global defined by `i32.const c` is `c` as an unsigned 32-bit value.
   */
  lemma OffsetThroughChain(mods: seq<ModuleRt>, cells: seq<seq<Cell>>, m: nat, i: nat, c: int)
    requires InitInv(mods, cells) && AllInitialized(cells) && m < |mods|
    requires i < |mods[m].globalImports| && !mods[m].globalImports[i].decl.mutable
    requires Follow(mods, SlotRef(m, i), {}).Ok?
    requires
      var d := Follow(mods, SlotRef(m, i), {}).value;
      mods[d.owner].globals[d.index] == DefinedGlobal(I32, false, [I32Const(c)])
      || mods[d.owner].globals[d.index] == DefinedGlobal(I32, true, [I32Const(c)])
    ensures OffsetAfterLinking(mods, cells, m, [GlobalGet(i)]) == Ok(U32(c))
  {
    var d := Follow(mods, SlotRef(m, i), {}).value;
    assert InitHolds(mods, cells, d);
  }

  /** From `a` to `b` only the element and data segments changed. */
  predicate SameButSegments(a: seq<ModuleRt>, b: seq<ModuleRt>)
  {
    |a| == |b| && forall e :: 0 <= e < |a| ==> b[e] == a[e].(elems := b[e].elems, datas := b[e].datas)
  }

  lemma SegmentsKeepCounts(a: seq<ModuleRt>, b: seq<ModuleRt>)
    requires SameButSegments(a, b)
    ensures SameCounts(a, b)
    ensures GlobalLinksValid(a) ==> GlobalLinksValid(b)
  {
    forall e | 0 <= e < |a| ensures Counts(a[e]) == Counts(b[e]) && a[e].globalImports == b[e].globalImports {
      assert b[e] == a[e].(elems := b[e].elems, datas := b[e].datas);
    }
    if GlobalLinksValid(a) {
      forall e, j | 0 <= e < |b| && 0 <= j < |b[e].globalImports|
        ensures LinkValid(b, GlobalExtern, b[e].globalImports[j].link)
      {
        LinkValidSameCounts(a, b, GlobalExtern, a[e].globalImports[j].link);
      }
    }
  }

  /** Storing segment offsets keeps the initialization invariant. */
  lemma SegmentsKeepInv(a: seq<ModuleRt>, b: seq<ModuleRt>, cells: seq<seq<Cell>>)
    requires SameButSegments(a, b) && InitInv(a, cells)
    ensures InitInv(b, cells)
  {
    SegmentsKeepCounts(a, b);
    forall e, j | 0 <= e < |b| && 0 <= j < |b[e].globals| && cells[e][j].state == Initialized
      ensures InitHolds(b, cells, GlobalRef(e, j))
    {
      assert b[e] == a[e].(elems := b[e].elems, datas := b[e].datas);
      assert InitHolds(a, cells, GlobalRef(e, j));
      var d := a[e].globals[j];
      if |d.init| == 1 && d.init[0].GlobalGet? && d.init[0].global < |a[e].globalImports| {
        FollowSameLinks(a, b, SlotRef(e, d.init[0].global), {});
      }
    }
  }

  /** Storing segment offsets keeps every slot linked. */
  lemma SegmentsKeepLinked(names: seq<string>, exports: Exports, a: seq<ModuleRt>, b: seq<ModuleRt>)
    requires SameButSegments(a, b) && Linked(names, exports, a)
    ensures Linked(names, exports, b)
  {
    SegmentsKeepCounts(a, b);
    forall e, k, j | 0 <= e < |b| && 0 <= j < |ImportsOf(b[e], k)|
      ensures ImportsOf(b[e], k)[j].link == LinkFor(names, exports, b, ImportsOf(b[e], k)[j])
    {
      assert b[e] == a[e].(elems := b[e].elems, datas := b[e].datas);
      assert ImportsOf(b[e], k) == ImportsOf(a[e], k);
      LinkForSameCounts(names, exports, a, b, ImportsOf(a[e], k)[j]);
    }
  }

  /** Storing segment offsets changes no offset evaluated afterwards. */
  lemma SegmentsKeepOffset(a: seq<ModuleRt>, b: seq<ModuleRt>, cells: seq<seq<Cell>>, m: nat, x: seq<ConstOp>)
    requires SameButSegments(a, b) && GlobalLinksValid(a) && CellsShaped(a, cells) && m < |a|
    ensures GlobalLinksValid(b) && CellsShaped(b, cells)
    ensures OffsetAfterLinking(a, cells, m, x) == OffsetAfterLinking(b, cells, m, x)
  {
    SegmentsKeepCounts(a, b);
    assert b[m] == a[m].(elems := b[m].elems, datas := b[m].datas);
    assert CellsShaped(b, cells) by {
      forall e | 0 <= e < |b| ensures |cells[e]| == |b[e].globals| {
        assert b[e] == a[e].(elems := b[e].elems, datas := b[e].datas);
      }
    }
    if |x| == 1 && x[0].GlobalGet? && x[0].global < |a[m].globalImports| {
      FollowSameLinks(a, b, SlotRef(m, x[0].global), {});
      var f := Follow(a, SlotRef(m, x[0].global), {});
      if f.Ok? {
        assert b[f.value.owner] == a[f.value.owner].(elems := b[f.value.owner].elems, datas := b[f.value.owner].datas);
      }
    }
  }

  /** `out` holds segments `segs` of module `m` with their offsets evaluated after linking. */
  predicate Relocated(mods: seq<ModuleRt>, cells: seq<seq<Cell>>, m: nat, segs: seq<Segment>, out: seq<Segment>)
    requires GlobalLinksValid(mods) && CellsShaped(mods, cells) && m < |mods|
  {
    |out| == |segs|
    && forall j :: 0 <= j < |segs| ==>
      out[j].expr == segs[j].expr && OffsetAfterLinking(mods, cells, m, segs[j].expr) == Ok(out[j].offset)
  }

  /** Every segment's offset is what its expression evaluates to after linking. */
  predicate OffsetsFinal(mods: seq<ModuleRt>, cells: seq<seq<Cell>>)
    requires GlobalLinksValid(mods) && CellsShaped(mods, cells)
  {
    forall e :: 0 <= e < |mods| ==>
      Relocated(mods, cells, e, mods[e].elems, mods[e].elems) && Relocated(mods, cells, e, mods[e].datas, mods[e].datas)
  }

  /** Storing the relocated segments makes every offset final. */
  lemma RelocatedFinal(a: seq<ModuleRt>, b: seq<ModuleRt>, cells: seq<seq<Cell>>)
    requires SameButSegments(a, b) && InitInv(a, cells)
    requires forall e :: 0 <= e < |a| ==>
      Relocated(a, cells, e, a[e].elems, b[e].elems) && Relocated(a, cells, e, a[e].datas, b[e].datas)
    ensures InitInv(b, cells) && OffsetsFinal(b, cells)
  {
    SegmentsKeepInv(a, b, cells);
    forall e | 0 <= e < |b|
      ensures Relocated(b, cells, e, b[e].elems, b[e].elems) && Relocated(b, cells, e, b[e].datas, b[e].datas)
    {
      forall j | 0 <= j < |b[e].elems|
        ensures OffsetAfterLinking(b, cells, e, b[e].elems[j].expr) == Ok(b[e].elems[j].offset)
      {
        SegmentsKeepOffset(a, b, cells, e, b[e].elems[j].expr);
      }
      forall j | 0 <= j < |b[e].datas|
        ensures OffsetAfterLinking(b, cells, e, b[e].datas[j].expr) == Ok(b[e].datas[j].offset)
      {
        SegmentsKeepOffset(a, b, cells, e, b[e].datas[j].expr);
      }
    }
  }
}
