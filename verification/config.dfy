/** The library-wide settings of sw-drivers/python/src/veriti/config.py: the
    design interface's port list, the testbench generics, and the indentation
    helper. The JSON documents the settings are read from arrive already
    decoded, as sequences of records. */
module Configuration {
  import opened Wrappers
  import opened Text

  const TAB_SIZE: nat := 2

  /** `TAB(n)`: `TAB_SIZE` spaces repeated `n` times (nothing for `n <= 0`). */
  function Tab(n: int): (r: string)
    ensures |r| == if n > 0 then TAB_SIZE * n else 0
    ensures forall i :: 0 <= i < |r| ==> r[i] == ' '
  {
    if n <= 0 then "" else Repeat(' ', TAB_SIZE) + Tab(n - 1)
  }

  /** One entry of the design interface's `ports` list. */
  datatype PortInfo = PortInfo(name: string, mode: string, dtype: string)

  /** One entry of the testbench interface's `generics` list; the default is
      kept as its JSON text. */
  datatype Generic = Generic(name: string, default: string)

  /** The first index of a port called `key`, or -1. */
  function FirstPort(ports: seq<PortInfo>, key: string): int
  {
    if ports == [] then -1
    else if ports[0].name == key then 0
    else
      var k := FirstPort(ports[1..], key);
      if k == -1 then -1 else k + 1
  }

  /** `FirstPort` is -1 exactly when no port is called `key`, and otherwise
      the smallest index of a port called `key`. */
  lemma {:induction false} FirstPortIsFirst(ports: seq<PortInfo>, key: string)
    ensures FirstPort(ports, key) == -1 <==> forall i :: 0 <= i < |ports| ==> ports[i].name != key
    ensures FirstPort(ports, key) != -1 ==> 0 <= FirstPort(ports, key) < |ports| && ports[FirstPort(ports, key)].name == key
    ensures forall j :: 0 <= j < |ports| && (FirstPort(ports, key) == -1 || j < FirstPort(ports, key)) ==> ports[j].name != key
  {
    if ports != [] && ports[0].name != key {
      FirstPortIsFirst(ports[1..], key);
      assert forall i :: 1 <= i < |ports| ==> ports[i] == ports[1..][i - 1];
    }
  }

  /** The generics map after storing each generic's default under its name,
      in order. */
  function ApplyGenerics(gens: map<string, string>, generics: seq<Generic>): map<string, string>
    decreases |generics|
  {
    if generics == [] then gens
    else ApplyGenerics(gens[generics[0].name := generics[0].default], generics[1..])
  }

  /** Whether some generic in the list is called `name`. */
  predicate Declares(generics: seq<Generic>, name: string) {
    exists i :: 0 <= i < |generics| && generics[i].name == name
  }

  /** Entry `i` is the last generic called `name`. */
  predicate LastDeclaration(generics: seq<Generic>, name: string, i: int) {
    0 <= i < |generics| && generics[i].name == name &&
    forall j :: i < j < |generics| ==> generics[j].name != name
  }

  /** Reading generics defines exactly the listed names on top of the old
      ones; a listed name takes the default of its LAST occurrence, and every
      other name keeps its old value. */
  lemma {:induction false} ApplyGenericsLastWins(gens: map<string, string>, generics: seq<Generic>, name: string)
    ensures name in ApplyGenerics(gens, generics) <==> name in gens || Declares(generics, name)
    ensures !Declares(generics, name) && name in gens ==> ApplyGenerics(gens, generics)[name] == gens[name]
    ensures forall i :: LastDeclaration(generics, name, i) ==>
      ApplyGenerics(gens, generics)[name] == generics[i].default
    decreases |generics|
  {
    if generics != [] {
      var g := generics[0];
      var rest := generics[1..];
      ApplyGenericsLastWins(gens[g.name := g.default], rest, name);
      assert Declares(generics, name) <==> g.name == name || Declares(rest, name) by {
        if Declares(generics, name) && g.name != name {
          var i :| 0 <= i < |generics| && generics[i].name == name;
          assert rest[i - 1].name == name;
        }
        if Declares(rest, name) {
          var i :| 0 <= i < |rest| && rest[i].name == name;
          assert generics[i + 1].name == name;
        }
      }
      forall i | LastDeclaration(generics, name, i)
        ensures ApplyGenerics(gens, generics)[name] == generics[i].default
      {
        if i > 0 {
          assert rest[i - 1] == generics[i];
          forall j | i - 1 < j < |rest|
            ensures rest[j].name != name
          {
            assert rest[j] == generics[j + 1];
          }
        } else {
          assert !Declares(rest, name) by {
            forall j | 0 <= j < |rest|
              ensures rest[j].name != name
            {
              assert rest[j] == generics[j + 1];
            }
          }
        }
      }
    }
  }

  /** The settings singleton. `ports` is the design interface's port list and
      `gens` maps generic names to their defaults. */
  class Config {
    var ports: seq<PortInfo>
    var gens: map<string, string>

    constructor()
      ensures ports == [] && gens == map[]
    {
      ports := [];
      gens := map[];
    }

    /** `read_bench_if`: store each generic's default under its name. */
    method ReadBenchIf(generics: seq<Generic>)
      modifies this
      ensures gens == ApplyGenerics(old(gens), generics)
      ensures ports == old(ports)
    {
      var i := 0;
      while i < |generics|
        invariant 0 <= i <= |generics|
        invariant ApplyGenerics(gens, generics[i..]) == ApplyGenerics(old(gens), generics)
        invariant ports == old(ports)
      {
        assert generics[i..][1..] == generics[i + 1..];
        gens := gens[generics[i].name := generics[i].default];
        i := i + 1;
      }
    }

    /** `read_design_if`: replace the port list by the document's ports, in order. */
    method ReadDesignIf(doc: seq<PortInfo>)
      modifies this
      ensures ports == doc
      ensures gens == old(gens)
    {
      ports := [];
      var i := 0;
      while i < |doc|
        invariant 0 <= i <= |doc|
        invariant ports == doc[..i]
        invariant gens == old(gens)
      {
        ports := ports + [doc[i]];
        i := i + 1;
      }
    }

    /** `locate_port(key)`: the first index of a port named `key`, or -1. */
    method LocatePort(key: string) returns (r: int)
      ensures r == FirstPort(ports, key)
    {
      FirstPortIsFirst(ports, key);
      var i := 0;
      while i < |ports|
        invariant 0 <= i <= |ports|
        invariant forall j :: 0 <= j < i ==> ports[j].name != key
      {
        if ports[i].name == key {
          return i;
        }
        i := i + 1;
      }
      return -1;
    }

    /** `get_port(i)`: the `i`-th stored port, counting from the end for a
        negative `i`; `Err` where Python raises `IndexError`. */
    function GetPort(i: int): (r: Result<PortInfo>)
      reads this
      ensures r.Ok? <==> -|ports| <= i < |ports|
      ensures r.Ok? && i >= 0 ==> r.value == ports[i]
      ensures r.Ok? && i < 0 ==> r.value == ports[|ports| + i]
    {
      if 0 <= i < |ports| then Ok(ports[i])
      else if -|ports| <= i < 0 then Ok(ports[|ports| + i])
      else Err("list index out of range")
    }
  }

  lemma TabExamples()
    ensures Tab(0) == "" && Tab(1) == "  " && Tab(3) == "      " && Tab(-2) == ""
  {
    assert Repeat(' ', 2) == "  ";
  }
}
