/** The program file: chip32_commands_save, chip32_command_load and page_load over a file
    held as a sequence of bytes, ten to a command, words little-endian. */
module CommandFile {
  import opened Bits
  import opened Machine

  const RECORD := 10

  function WordBytes(w: Word): (s: seq<Byte>)
    ensures |s| == 4
  {
    var u := Unsigned(w);
    [u % 256, u / 256 % 256, u / 65536 % 256, u / 16777216]
  }

  function Join(a: int, b: int, c: int, d: int): int {
    a + 256 * (b + 256 * (c + 256 * d))
  }

  function BytesWord(s: seq<Byte>): Word
    requires |s| == 4
  {
    Wrap(Join(s[0], s[1], s[2], s[3]))
  }

  lemma SplitJoin(a: Byte, b: Byte, c: Byte, d: Byte)
    ensures var u := Join(a, b, c, d);
      0 <= u < TWO32 && u % 256 == a && u / 256 % 256 == b && u / 65536 % 256 == c && u / 16777216 == d
  {
    var u := Join(a, b, c, d);
    assert u / 256 == b + 256 * (c + 256 * d);
    assert u / 65536 == u / 256 / 256 == c + 256 * d;
    assert u / 16777216 == u / 65536 / 256;
  }

  lemma WordRoundTrip(w: Word)
    ensures BytesWord(WordBytes(w)) == w
  {
    var u := Unsigned(w);
    assert u / 65536 == u / 256 / 256 && u / 16777216 == u / 65536 / 256;
    assert Join(u % 256, u / 256 % 256, u / 65536 % 256, u / 16777216) == u;
  }

  lemma BytesRoundTrip(s: seq<Byte>)
    requires |s| == 4
    ensures WordBytes(BytesWord(s)) == s
  {
    SplitJoin(s[0], s[1], s[2], s[3]);
    assert Unsigned(BytesWord(s)) == Join(s[0], s[1], s[2], s[3]);
  }

  function Encode(c: Command): (s: seq<Byte>)
    ensures |s| == RECORD
  {
    [c.flags, c.cmd] + WordBytes(c.arg0) + WordBytes(c.arg1)
  }

  function Decode(s: seq<Byte>): Command
    requires |s| == RECORD
  {
    Command(s[0], s[1], BytesWord(s[2..6]), BytesWord(s[6..10]))
  }

  lemma EncodeSlices(c: Command)
    ensures Encode(c)[2..6] == WordBytes(c.arg0) && Encode(c)[6..10] == WordBytes(c.arg1)
  {
  }

  lemma CommandRoundTrip(c: Command)
    ensures Decode(Encode(c)) == c
  {
    WordRoundTrip(c.arg0);
    WordRoundTrip(c.arg1);
    EncodeSlices(c);
  }

  lemma RecordRoundTrip(s: seq<Byte>)
    requires |s| == RECORD
    ensures Encode(Decode(s)) == s
  {
    BytesRoundTrip(s[2..6]);
    BytesRoundTrip(s[6..10]);
  }

  function Save(prog: seq<Command>): (f: seq<Byte>)
    ensures |f| == RECORD * |prog|
  {
    if prog == [] then [] else Save(prog[..|prog| - 1]) + Encode(prog[|prog| - 1])
  }

  /** The whole commands of a file; a cut-off last record is not one. */
  function Load(f: seq<Byte>): (prog: seq<Command>)
    ensures |prog| == |f| / RECORD
    ensures forall k :: 0 <= k < |prog| ==> prog[k] == Decode(f[RECORD * k..RECORD * k + RECORD])
  {
    seq(|f| / RECORD, k requires 0 <= k < |f| / RECORD => Decode(f[RECORD * k..RECORD * k + RECORD]))
  }

  lemma {:induction false} SavedRecord(prog: seq<Command>, k: nat)
    requires k < |prog|
    ensures Save(prog)[RECORD * k..RECORD * k + RECORD] == Encode(prog[k])
    decreases |prog|
  {
    var init := prog[..|prog| - 1];
    if k < |init| {
      SavedRecord(init, k);
      assert Save(prog)[RECORD * k..RECORD * k + RECORD] == Save(init)[RECORD * k..RECORD * k + RECORD];
    }
  }

  /** Loading what was saved gives the same program. */
  lemma LoadSave(prog: seq<Command>)
    ensures Load(Save(prog)) == prog
  {
    forall k | 0 <= k < |prog|
      ensures Load(Save(prog))[k] == prog[k]
    {
      SavedRecord(prog, k);
      CommandRoundTrip(prog[k]);
    }
  }

  /** A word's bytes, the lowest first. */
  predicate LittleEndian(s: seq<Byte>, i: nat, w: Word)
    requires i + 4 <= |s|
  {
    var a: int, b: int, c: int, d: int := s[i], s[i + 1], s[i + 2], s[i + 3];
    a + 0x100 * b + 0x1_0000 * c + 0x100_0000 * d == if w < 0 then w + 0x1_0000_0000 else w
  }

  /** Where each field of each command lies in the file. */
  lemma SaveLayout(prog: seq<Command>, k: nat)
    requires k < |prog|
    ensures var f := Save(prog);
      && |f| == 10 * |prog| && f[10 * k] == prog[k].flags && f[10 * k + 1] == prog[k].cmd
      && LittleEndian(f, 10 * k + 2, prog[k].arg0) && LittleEndian(f, 10 * k + 6, prog[k].arg1)
  {
    var f, p := Save(prog), 10 * k;
    SavedRecord(prog, k);
    RecordLayout(f, p, prog[k]);
  }

  lemma SliceSlice(f: seq<Byte>, p: nat, a: nat, b: nat)
    requires p + 10 <= |f| && a <= b <= 10
    ensures f[p..p + 10][a..b] == f[p + a..p + b]
  {
    var s, t := f[p..p + 10][a..b], f[p + a..p + b];
    forall i | 0 <= i < |s|
      ensures s[i] == t[i]
    {
    }
  }

  lemma RecordLayout(f: seq<Byte>, p: nat, c: Command)
    requires p + 10 <= |f| && f[p..p + 10] == Encode(c)
    ensures f[p] == c.flags && f[p + 1] == c.cmd
    ensures LittleEndian(f, p + 2, c.arg0) && LittleEndian(f, p + 6, c.arg1)
  {
    var e := f[p..p + 10];
    EncodeSlices(c);
    assert f[p] == e[0] && f[p + 1] == e[1];
    SliceSlice(f, p, 2, 6);
    SliceSlice(f, p, 6, 10);
    WordLayout(f, p + 2, c.arg0);
    WordLayout(f, p + 6, c.arg1);
  }

  lemma WordLayout(s: seq<Byte>, i: nat, w: Word)
    requires i + 4 <= |s| && s[i..i + 4] == WordBytes(w)
    ensures LittleEndian(s, i, w)
  {
    var u := Unsigned(w);
    assert s[i..i + 4][0] == u % 256 && s[i..i + 4][1] == u / 256 % 256;
    assert s[i..i + 4][2] == u / 65536 % 256 && s[i..i + 4][3] == u / 16777216;
    assert u / 65536 == u / 256 / 256 && u / 16777216 == u / 65536 / 256;
  }

  /** How many of `size` commands from index addr on a program has. */
  function Available(total: nat, addr: nat, size: nat): nat {
    if addr >= total then 0 else Min(size, total - addr)
  }

  /** The save loop writes one command after the other, field by field. */
  method SaveCommands(prog: seq<Command>) returns (f: seq<Byte>)
    ensures f == Save(prog) && Load(f) == prog
  {
    f := [];
    for i := 0 to |prog|
      invariant f == Save(prog[..i])
    {
      var c := prog[i];
      f := f + [c.flags];
      f := f + [c.cmd];
      f := f + WordBytes(c.arg0);
      f := f + WordBytes(c.arg1);
      assert prog[..i + 1][..i] == prog[..i];
      assert f == Save(prog[..i]) + Encode(c);
    }
    assert prog[..|prog|] == prog;
    LoadSave(prog);
  }

  /** chip32_command_load: four reads, each failing at the end of the file. */
  method LoadCommand(f: seq<Byte>, pos: nat, old_: Command) returns (ok: bool, c: Command)
    ensures ok <==> pos + RECORD <= |f|
    ensures ok ==> c == Decode(f[pos..pos + RECORD])
  {
    c := old_;
    ok := false;
    if pos + 1 > |f| { return; }
    c := c.(flags := f[pos]);
    if pos + 2 > |f| { return; }
    c := c.(cmd := f[pos + 1]);
    if pos + 6 > |f| { return; }
    c := c.(arg0 := BytesWord(f[pos + 2..pos + 6]));
    if pos + 10 > |f| { return; }
    c := c.(arg1 := BytesWord(f[pos + 6..pos + 10]));
    ok := true;
    var r := f[pos..pos + RECORD];
    assert r[2..6] == f[pos + 2..pos + 6] && r[6..10] == f[pos + 6..pos + 10];
  }

  /** page_load: seek to command addr, load what is there, clear the opcode of the rest. */
  method PageLoad(f: seq<Byte>, addr: nat, data: array<Command>) returns (n: nat)
    modifies data
    ensures n == Available(|Load(f)|, addr, data.Length)
    ensures forall i :: 0 <= i < n ==> data[i] == Load(f)[addr + i]
    ensures forall i :: n <= i < data.Length ==> data[i].cmd == NOP
  {
    n := 0;
    var ok := true;
    while n < data.Length && ok
      invariant n <= data.Length && (n > 0 ==> addr + n <= |Load(f)|)
      invariant !ok ==> addr + n >= |Load(f)|
      invariant forall i :: 0 <= i < n ==> data[i] == Load(f)[addr + i]
      decreases data.Length - n, ok
    {
      ok, data[n] := LoadCommand(f, RECORD * (addr + n), data[n]);
      if ok {
        assert Load(f)[addr + n] == Decode(f[RECORD * (addr + n)..RECORD * (addr + n) + RECORD]);
        n := n + 1;
      }
    }
    for i := n to data.Length
      invariant forall j :: 0 <= j < n ==> data[j] == Load(f)[addr + j]
      invariant forall j :: n <= j < i ==> data[j].cmd == NOP
    {
      data[i] := data[i].(cmd := NOP);
    }
  }
}
