/**
 * The executor's database registry and statement dispatch: the names of the
 * databases created so far, the one in use, and the conversion of a numeric
 * literal to an unsigned 32-bit integer.
 *
 * A database's storage engine is not modelled: the registry keeps only the
 * names. The statement executors for tables, indexes and rows are not
 * modelled either: dispatch hands their result through. The select, execfile
 * and transaction executors only fail, and dispatch does the same.
 */
module Executor {
  import opened Common
  import opened Bytes

  type Name = seq<byte>

  /** `(n * 10 + c - '0')` in `uint32_t`: the arithmetic wraps modulo 2^32. */
  function Shifted(n: u32, c: byte): (r: u32)
  {
    (n * 10 + CharValue(c) - '0' as int) % U32_LIMIT
  }

  /** The value of a `char`, which is signed: bytes from 128 on are negative. */
  function CharValue(c: byte): (v: int)
    ensures -128 <= v < 128 && v % 256 == c
  {
    if c >= 128 then c - 256 else c
  }

  /** StringToInt's accumulator after the characters of `s`, the first one first. */
  function IntOf(s: seq<byte>): u32
  {
    if s == [] then 0 else Shifted(IntOf(s[..|s| - 1]), s[|s| - 1])
  }

  predicate IsDigit(c: byte)
  {
    '0' as int <= c <= '9' as int
  }

  /** The number a string of decimal digits spells, without any bound. */
  function Decimal(s: seq<byte>): (n: nat)
    requires forall i :: 0 <= i < |s| ==> IsDigit(s[i])
  {
    if s == [] then 0
    else
      assert IsDigit(s[|s| - 1]);
      10 * Decimal(s[..|s| - 1]) + (s[|s| - 1] - '0' as int)
  }

  /** `(a % M * 10 + d) % M == (a * 10 + d) % M` for the 32-bit modulus. */
  lemma MulAddMod(a: nat, d: int)
    ensures (a % U32_LIMIT * 10 + d) % U32_LIMIT == (a * 10 + d) % U32_LIMIT
  {
    var q := a / U32_LIMIT;
    assert a * 10 + d == (a % U32_LIMIT * 10 + d) + U32_LIMIT * (10 * q);
  }

  /** On decimal digits, StringToInt is the number they spell, reduced modulo 2^32. */
  lemma {:induction false} DigitsConvert(s: seq<byte>)
    requires forall i :: 0 <= i < |s| ==> IsDigit(s[i])
    ensures IntOf(s) == Decimal(s) % U32_LIMIT
    decreases |s|
  {
    if s != [] {
      var init := s[..|s| - 1];
      DigitsConvert(init);
      MulAddMod(Decimal(init), s[|s| - 1] - '0' as int);
    }
  }

  /** A number below 2^32 written in decimal converts back to itself. */
  lemma SmallNumbersConvert(s: seq<byte>)
    requires forall i :: 0 <= i < |s| ==> IsDigit(s[i])
    requires Decimal(s) < U32_LIMIT
    ensures IntOf(s) == Decimal(s)
  {
    DigitsConvert(s);
  }

  /** Nothing checks for digits: "1a" converts to 1 * 10 + ('a' - '0') = 59. */
  lemma NonDigitsAccepted()
    ensures IntOf(['1' as int, 'a' as int]) == 59
  {
    assert ['1' as int, 'a' as int][..1] == ['1' as int];
    assert ['1' as int][..0] == [];
    assert IntOf(['1' as int]) == 1;
  }

  /**
   * StringToInt: folds the characters before the terminating NUL into the
   * accumulator, starting from 0. `s` is the buffer the `char *` argument addresses;
   * the scan also stops at its end.
   */
  method StringToInt(s: seq<byte>) returns (len: u32)
    ensures len == IntOf(CString(s))
  {
    len := 0;
    var i := 0;
    while i < |s| && s[i] != 0
      invariant 0 <= i <= |s| && NoNul(s[..i])
      invariant len == IntOf(s[..i])
    {
      assert s[..i + 1][..i] == s[..i];
      len := Shifted(len, s[i]);
      i := i + 1;
    }
    CStringFacts(s);
  }

  /** The registry as a value: the names of the databases and the one in use (empty for none). */
  datatype Registry = Registry(dbs: set<Name>, current: Name)

  /** The database in use, if any, is registered. */
  predicate CurrentKnown(reg: Registry)
  {
    reg.current == [] || reg.current in reg.dbs
  }

  /** ExecuteCreateDatabase: fails on a registered name, otherwise registers it. */
  function DatabaseCreated(reg: Registry, name: Name): (r: (Registry, DbErr))
    ensures r.1 == DB_FAILED <==> name in reg.dbs
    ensures r.1 == DB_FAILED ==> r.0 == reg
    ensures r.1 == DB_SUCCESS <==> name !in reg.dbs
    ensures r.1 == DB_SUCCESS ==> r.0.dbs == reg.dbs + {name} && r.0.current == reg.current
  {
    if name in reg.dbs then (reg, DB_FAILED) else (Registry(reg.dbs + {name}, reg.current), DB_SUCCESS)
  }

  /**
   * ExecuteDropDatabase: fails on an unknown name; otherwise unregisters it
   * and, when it was the database in use, leaves none in use.
   */
  function DatabaseDropped(reg: Registry, name: Name): (r: (Registry, DbErr))
    ensures r.1 == DB_FAILED <==> name !in reg.dbs
    ensures r.1 == DB_FAILED ==> r.0 == reg
    ensures r.1 == DB_SUCCESS <==> name in reg.dbs
    ensures r.1 == DB_SUCCESS ==> r.0.dbs == reg.dbs - {name}
    ensures r.1 == DB_SUCCESS ==> r.0.current == if reg.current == name then [] else reg.current
  {
    if name !in reg.dbs then (reg, DB_FAILED)
    else (Registry(reg.dbs - {name}, if name == reg.current then [] else reg.current), DB_SUCCESS)
  }

  /** ExecuteUseDatabase: fails on an unknown name, otherwise puts it in use. */
  function DatabaseUsed(reg: Registry, name: Name): (r: (Registry, DbErr))
    ensures r.1 == DB_FAILED <==> name !in reg.dbs
    ensures r.1 == DB_FAILED ==> r.0 == reg
    ensures r.1 == DB_SUCCESS ==> r.0 == Registry(reg.dbs, name)
  {
    if name !in reg.dbs then (reg, DB_FAILED) else (Registry(reg.dbs, name), DB_SUCCESS)
  }

  /** ExecuteShowDatabases: fails exactly when no database is registered. */
  function DatabasesShown(reg: Registry): (r: DbErr)
    ensures r == DB_FAILED <==> |reg.dbs| == 0
    ensures r == DB_SUCCESS <==> |reg.dbs| > 0
  {
    if reg.dbs == {} then DB_FAILED else DB_SUCCESS
  }

  /** Every registry operation keeps the database in use registered. */
  lemma OperationsKeepCurrentKnown(reg: Registry, name: Name)
    requires CurrentKnown(reg)
    ensures CurrentKnown(DatabaseCreated(reg, name).0)
    ensures CurrentKnown(DatabaseDropped(reg, name).0)
    ensures CurrentKnown(DatabaseUsed(reg, name).0)
  {
  }

  /** Dropping a database just created gives the registry back, the database in use included. */
  lemma DropUndoesCreate(reg: Registry, name: Name)
    requires CurrentKnown(reg) && name !in reg.dbs
    ensures DatabaseDropped(DatabaseCreated(reg, name).0, name) == (reg, DB_SUCCESS)
  {
    var r1 := DatabaseCreated(reg, name).0;
    assert r1.dbs - {name} == reg.dbs;
  }

  /** After a drop the name can be created again, and it cannot be used until it is. */
  lemma DropThenUseFails(reg: Registry, name: Name)
    requires name in reg.dbs
    ensures DatabaseUsed(DatabaseDropped(reg, name).0, name).1 == DB_FAILED
    ensures DatabaseCreated(DatabaseDropped(reg, name).0, name).1 == DB_SUCCESS
  {
  }

  /** Once a database is created, showing the databases succeeds. */
  lemma CreateThenShow(reg: Registry, name: Name)
    ensures DatabasesShown(DatabaseCreated(reg, name).0) == DB_SUCCESS
  {
    assert name in DatabaseCreated(reg, name).0.dbs;
  }

  /** The statement kinds the parser produces, with `Unknown` for any other node type. */
  datatype NodeKind =
    | CreateDb | DropDb | ShowDbs | UseDb
    | ShowTables | CreateTable | DropTable | ShowIndexes | CreateIndex | DropIndex
    | Select | Insert | Delete | Update | TrxBegin | TrxCommit | TrxRollback | ExecFile
    | Quit
    | Unknown(code: int)

  /** A syntax tree node: its kind and the text of its first child, where the statement names something. */
  datatype Node = Node(kind: NodeKind, name: Name)

  /** The statements whose executors do nothing and return DB_FAILED. */
  predicate Unsupported(k: NodeKind)
  {
    k.Select? || k.ExecFile? || k.TrxBegin? || k.TrxCommit? || k.TrxRollback?
  }

  /** The statements whose executors this model leaves out. */
  predicate Delegated(k: NodeKind)
  {
    k.ShowTables? || k.CreateTable? || k.DropTable? || k.ShowIndexes? || k.CreateIndex? || k.DropIndex?
    || k.Insert? || k.Delete? || k.Update?
  }

  /** `ExecuteContext`: the flag that tells the shell to stop. */
  class ExecuteContext {
    var quit: bool

    constructor ()
      ensures !quit
    {
      quit := false;
    }
  }

  class ExecuteEngine {
    var dbs: set<Name>
    var current: Name

    function Model(): Registry
      reads this
    {
      Registry(dbs, current)
    }

    constructor ()
      ensures Model() == Registry({}, [])
    {
      dbs := {};
      current := [];
    }

    method ExecuteCreateDatabase(name: Name) returns (r: DbErr)
      modifies this
      ensures (Model(), r) == DatabaseCreated(old(Model()), name)
    {
      if name in dbs {
        return DB_FAILED;
      }
      dbs := dbs + {name};
      return DB_SUCCESS;
    }

    method ExecuteDropDatabase(name: Name) returns (r: DbErr)
      modifies this
      ensures (Model(), r) == DatabaseDropped(old(Model()), name)
    {
      if name !in dbs {
        return DB_FAILED;
      }
      dbs := dbs - {name};
      if name == current {
        current := [];
      }
      return DB_SUCCESS;
    }

    method ExecuteShowDatabases() returns (r: DbErr)
      ensures r == DatabasesShown(Model())
    {
      if dbs == {} {
        return DB_FAILED;
      }
      return DB_SUCCESS;
    }

    method ExecuteUseDatabase(name: Name) returns (r: DbErr)
      modifies this
      ensures (Model(), r) == DatabaseUsed(old(Model()), name)
    {
      if name !in dbs {
        return DB_FAILED;
      }
      current := name;
      return DB_SUCCESS;
    }

    /** ExecuteQuit: raises the context's quit flag and succeeds. */
    method ExecuteQuit(context: ExecuteContext) returns (r: DbErr)
      modifies context
      ensures context.quit && r == DB_SUCCESS
    {
      context.quit := true;
      r := DB_SUCCESS;
    }

    /**
     * Execute: no tree, or a node type outside the switch, fails; a database
     * statement or quit runs here; select, execfile and the transaction
     * statements fail, as their executors do nothing else; any other
     * statement returns `delegated`, the result of its executor.
     */
    method Execute(ast: Option<Node>, context: ExecuteContext, delegated: DbErr) returns (r: DbErr)
      modifies this, context
      ensures ast.None? || ast.value.kind.Unknown? ==> r == DB_FAILED && Model() == old(Model())
      ensures ast.Some? && ast.value.kind.CreateDb? ==> (Model(), r) == DatabaseCreated(old(Model()), ast.value.name)
      ensures ast.Some? && ast.value.kind.DropDb? ==> (Model(), r) == DatabaseDropped(old(Model()), ast.value.name)
      ensures ast.Some? && ast.value.kind.UseDb? ==> (Model(), r) == DatabaseUsed(old(Model()), ast.value.name)
      ensures ast.Some? && ast.value.kind.ShowDbs? ==> r == DatabasesShown(old(Model())) && Model() == old(Model())
      ensures ast.Some? && ast.value.kind.Quit? ==> r == DB_SUCCESS && context.quit && Model() == old(Model())
      ensures ast.Some? && Unsupported(ast.value.kind) ==> r == DB_FAILED && Model() == old(Model())
      ensures ast.Some? && Delegated(ast.value.kind) ==> r == delegated && Model() == old(Model())
      ensures ast.None? || !ast.value.kind.Quit? ==> context.quit == old(context.quit)
    {
      if ast.None? {
        return DB_FAILED;
      }
      var node := ast.value;
      match node.kind
      case CreateDb => r := ExecuteCreateDatabase(node.name);
      case DropDb => r := ExecuteDropDatabase(node.name);
      case ShowDbs => r := ExecuteShowDatabases();
      case UseDb => r := ExecuteUseDatabase(node.name);
      case Quit => r := ExecuteQuit(context);
      case Unknown(_) => r := DB_FAILED;
      case Select => r := DB_FAILED;
      case ExecFile => r := DB_FAILED;
      case TrxBegin => r := DB_FAILED;
      case TrxCommit => r := DB_FAILED;
      case TrxRollback => r := DB_FAILED;
      case _ => r := delegated;
    }
  }
}
