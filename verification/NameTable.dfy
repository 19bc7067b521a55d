/** The assembler's table of declared names, the hash table of core/c32asm.c, answers as the map
    that the parser's model uses in its place. */
module NameTable {
  import opened Bits
  import opened RobinHood
  import opened HashTable
  import opened HashRuns
  import opened HashMaps
  import SourceText
  import opened Lexer
  import opened Parser

  const A32_RBH_SIZE := 4096
  const A32_RBH_MIN := 10
  const A32_RBH_KEY := 64

  function Bytes(name: string): (key: seq<Byte>)
    ensures |key| == |name|
  {
    seq(|name|, i requires 0 <= i < |name| => name[i] as int % 256)
  }

  /** Identifiers are told apart by their bytes, and do not start with a zero byte. */
  lemma BytesTell(s: string, t: string)
    requires SourceText.IsIdentifier(s) && SourceText.IsIdentifier(t)
    ensures Bytes(s) == Bytes(t) <==> s == t
    ensures Bytes(s)[0] != 0
  {
    assert IsNameChar(s[0]);
    if Bytes(s) == Bytes(t) {
      forall i | 0 <= i < |s|
        ensures s[i] == t[i]
      {
        assert IsNameChar(s[i]) && IsNameChar(t[i]);
        assert Bytes(s)[i] == s[i] as int && Bytes(t)[i] == t[i] as int;
      }
    }
  }

  /** What the parser asks of the table: to add a declaration, at an address of its own, or to
      look a name up. */
  datatype NameOp = Declare(name: string, what: Declared, at: Data) | Named(name: string)

  function TableOp(o: NameOp): Op {
    match o
    case Declare(name, _, at) => AddUnique(Bytes(name), at)
    case Named(name) => Get(Bytes(name))
  }

  function TableOps(os: seq<NameOp>): (ops: seq<Op>)
    ensures |ops| == |os| && forall i :: 0 <= i < |os| ==> ops[i] == TableOp(os[i])
  {
    seq(|os|, i requires 0 <= i < |os| => TableOp(os[i]))
  }

  /** Names are identifiers and declarations lie at addresses other than NULL. */
  predicate ProperNames(os: seq<NameOp>, heap: map<Data, Declared>) {
    forall i :: 0 <= i < |os| ==>
      && SourceText.IsIdentifier(os[i].name)
      && (os[i].Declare? ==> os[i].at != 0 && os[i].at in heap && heap[os[i].at] == os[i].what)
  }

  /** The parser's map after the operation. */
  function NamesAfter(names: map<string, Declared>, o: NameOp): map<string, Declared> {
    if o.Named? then names
    else
      match AddName(EMPTY.(declare := names), o.name, o.what)
      case None => names
      case Some(asm) => asm.declare
  }

  /** The table's answer is the one the parser's map gives. */
  predicate RightAnswer(names: map<string, Declared>, heap: map<Data, Declared>, o: NameOp, a: Answer) {
    match o
    case Declare(name, what, _) => a == Stored(Done) <==> AddName(EMPTY.(declare := names), name, what).Some?
    case Named(name) =>
      a.Value? && if name in names then a.data in heap && heap[a.data] == names[name] else a.data == 0
  }

  predicate AllRight(names: map<string, Declared>, heap: map<Data, Declared>, os: seq<NameOp>, answers: seq<Answer>)
    decreases |os|
  {
    if os == [] then answers == []
    else
      && answers != [] && RightAnswer(names, heap, os[0], answers[0])
      && AllRight(NamesAfter(names, os[0]), heap, os[1..], answers[1..])
  }

  /** The map of the table and the map of the parser. */
  ghost predicate Tied(names: map<string, Declared>, m: Map, heap: map<Data, Declared>) {
    && (forall s :: s in names ==>
          SourceText.IsIdentifier(s) && Bytes(s) in m && m[Bytes(s)] in heap && heap[m[Bytes(s)]] == names[s])
    && (forall key :: key in m ==> exists s :: s in names && Bytes(s) == key)
  }

  lemma TiedTells(names: map<string, Declared>, m: Map, heap: map<Data, Declared>, name: string)
    requires Tied(names, m, heap) && SourceText.IsIdentifier(name)
    ensures name in names <==> Bytes(name) in m
  {
    if Bytes(name) in m {
      var s :| s in names && Bytes(s) == Bytes(name);
      BytesTell(s, name);
    }
  }

  lemma StepStaysTied(names: map<string, Declared>, m: Map, heap: map<Data, Declared>, o: NameOp)
    requires Tied(names, m, heap) && ProperNames([o], heap)
    ensures var (m', a) := MapApply(m, MAX_KEY, TableOp(o));
      RightAnswer(names, heap, o, a) && Tied(NamesAfter(names, o), m', heap)
  {
    assert o == [o][0];
    var name := o.name;
    TiedTells(names, m, heap, name);
    if o.Declare? && name !in names && |name| <= MAX_KEY {
      var names', m' := names[name := o.what], m[Bytes(name) := o.at];
      forall s | s in names'
        ensures SourceText.IsIdentifier(s) && Bytes(s) in m' && m'[Bytes(s)] in heap && heap[m'[Bytes(s)]] == names'[s]
      {
        BytesTell(s, name);
      }
      forall key | key in m'
        ensures exists s :: s in names' && Bytes(s) == key
      {
        if key == Bytes(name) {
          assert name in names';
        } else {
          var s :| s in names && Bytes(s) == key;
          assert s in names';
        }
      }
    }
  }

  lemma {:induction false} RunStaysTied(names: map<string, Declared>, m: Map, heap: map<Data, Declared>,
                                        os: seq<NameOp>)
    requires Tied(names, m, heap) && ProperNames(os, heap)
    ensures AllRight(names, heap, os, MapRun(m, MAX_KEY, TableOps(os)).1) && AddsNew(m, MAX_KEY, TableOps(os))
    decreases |os|
  {
    if os != [] {
      StepStaysTied(names, m, heap, os[0]);
      RunStaysTied(NamesAfter(names, os[0]), MapApply(m, MAX_KEY, TableOp(os[0])).0, heap, os[1..]);
      assert TableOps(os)[1..] == TableOps(os[1..]);
    }
  }

  /** The guards of such a history hold in both forms: there are no removals, and no name starts
      with a zero byte. */
  lemma NamesAreGuarded(env: Env, heap: map<Data, Declared>, os: seq<NameOp>)
    requires ProperNames(os, heap)
    ensures var ops, tb := TableOps(os), New(A32_RBH_SIZE, A32_RBH_MIN, A32_RBH_KEY, env.memory);
      AllProper(ops) && Keyed(ops) && RunGuarded(tb, env, ops)
  {
    var ops, tb := TableOps(os), New(A32_RBH_SIZE, A32_RBH_MIN, A32_RBH_KEY, env.memory);
    NewIsEmpty(A32_RBH_SIZE, A32_RBH_MIN, A32_RBH_KEY, env.memory);
    forall i | 0 <= i < |ops|
      ensures Proper(ops[i]) && ops[i].key[0] != 0 && !ops[i].Remove?
    {
      BytesTell(os[i].name, os[i].name);
    }
    AddsAloneAreGuarded(tb, env, ops);
    KeptRunIsGuarded(tb, env, ops);
  }

  /** Over every history of declarations and lookups, the assembler's table, with all its
      displacements and growths and whatever malloc leaves, gives the answers of the parser's
      map. */
  lemma TableIsNames(env: Env, heap: map<Data, Declared>, os: seq<NameOp>)
    requires ProperNames(os, heap)
    ensures var ops, tb := TableOps(os), New(A32_RBH_SIZE, A32_RBH_MIN, A32_RBH_KEY, env.memory);
      Keyed(ops) && (Completed(Run(tb, env, ops).1) ==> AllRight(map[], heap, os, Run(tb, env, ops).1))
  {
    var ops, tb := TableOps(os), New(A32_RBH_SIZE, A32_RBH_MIN, A32_RBH_KEY, env.memory);
    NamesAreGuarded(env, heap, os);
    RunStaysTied(map[], map[], heap, os);
    if Completed(Run(tb, env, ops).1) {
      NewTableIsMap(A32_RBH_SIZE, A32_RBH_MIN, A32_RBH_KEY, env, ops);
    }
  }
}
