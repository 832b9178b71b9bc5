/** The registry of named panes. The file maps names to the printed form of addresses; a missing file
    reads as the empty map. */
module PaneRegistry {
  import opened Sequences
  import opened Text
  import Lexicographic
  import PaneAddress

  type Address = PaneAddress.Address
  type Entries = map<string, string>

  datatype Result<T> = Ok(value: T) | InvalidName | Malformed(name: string)

  predicate ValidName(name: string) {
    && name != []
    && forall i :: 0 <= i < |name| ==>
         !IsControl(name[i]) && !IsWhitespace(name[i]) && name[i] != ':' && name[i] != '/' && name[i] != '\\'
  }

  /** Which names are refused. */
  lemma InvalidNames(name: string)
    ensures !ValidName(name) <==>
      name == "" || exists c :: c in name && (c in ":/\\" || c < ' ' || '\U{7F}' <= c <= '\U{9F}' || IsWhitespace(c))
  {
    if name != "" && !ValidName(name) {
      var i :| 0 <= i < |name|
        && (IsControl(name[i]) || IsWhitespace(name[i]) || name[i] == ':' || name[i] == '/' || name[i] == '\\');
      assert name[i] in name;
    }
  }

  /** The text of `name` does not parse, and those of all names before it do. */
  ghost predicate FirstMalformed(
    entries: Entries, names: seq<string>, name: string, parse: string -> PaneAddress.Result<Address>)
  {
    exists k ::
      && 0 <= k < |names| && names[k] == name
      && name in entries && parse(entries[name]).Err?
      && forall j :: 0 <= j < k ==> names[j] in entries && parse(entries[names[j]]).Ok?
  }

  /** The loop of `list`, for any parser. */
  method ParseAll(entries: Entries, names: seq<string>, parse: string -> PaneAddress.Result<Address>)
    returns (r: Result<seq<(string, Address)>>)
    requires forall n :: n in names <==> n in entries
    ensures r.Ok? <==> forall n :: n in entries ==> parse(entries[n]).Ok?
    ensures r.Ok? ==>
      && |r.value| == |names|
      && forall i :: 0 <= i < |names| ==>
           r.value[i].0 == names[i] && parse(entries[names[i]]) == PaneAddress.Ok(r.value[i].1)
    ensures r.Malformed? ==> FirstMalformed(entries, names, r.name, parse)
    ensures r != InvalidName
  {
    var out: seq<(string, Address)> := [];
    var i := 0;
    while i < |names|
      invariant 0 <= i <= |names| && |out| == i
      invariant forall j :: 0 <= j < i ==> out[j].0 == names[j] && parse(entries[names[j]]) == PaneAddress.Ok(out[j].1)
    {
      var name := names[i];
      var parsed := parse(entries[name]);
      if parsed.Err? {
        return Malformed(name);
      }
      out := out + [(name, parsed.value)];
      i := i + 1;
    }
    forall n | n in entries ensures parse(entries[n]).Ok? {
      assert n in names;
    }
    r := Ok(out);
  }

  function ResolveIn(entries: Entries, name: string): (r: Result<Option<Address>>) {
    if name !in entries then Ok(None)
    else
      match PaneAddress.Parse(entries[name])
      case Err(_) => Malformed(name)
      case Ok(a) => Ok(Some(a))
  }

  /** Absent, unreadable and readable entries are told apart. */
  lemma ResolveIs(entries: Entries, name: string)
    ensures ResolveIn(entries, name) == Ok(None) <==> name !in entries
    ensures ResolveIn(entries, name) == Malformed(name) <==>
            name in entries && PaneAddress.Parse(entries[name]).Err?
    ensures forall a :: ResolveIn(entries, name) == Ok(Some(a)) <==>
            name in entries && PaneAddress.Parse(entries[name]) == PaneAddress.Ok(a)
  {
  }

  datatype Op = Register(name: string, addr: Address) | Unregister(name: string)

  function Step(entries: Entries, op: Op): (r: Entries) {
    match op
    case Register(name, addr) =>
      if ValidName(name) then entries[name := PaneAddress.PrintAddress(addr)] else entries
    case Unregister(name) => entries - {name}
  }

  class PaneRegistry {
    var entries: Entries

    constructor ()
      ensures entries == map[]
    {
      entries := map[];
    }

    method Register(name: string, addr: Address) returns (r: Result<()>)
      modifies this
      ensures r == if ValidName(name) then Ok(()) else InvalidName
      ensures entries == Step(old(entries), Op.Register(name, addr))
    {
      if !ValidName(name) {
        return InvalidName;
      }
      entries := entries[name := PaneAddress.PrintAddress(addr)];
      r := Ok(());
    }

    method Unregister(name: string)
      modifies this
      ensures entries == Step(old(entries), Op.Unregister(name))
    {
      entries := entries - {name};
    }

    method Resolve(name: string) returns (r: Result<Option<Address>>)
      ensures r == ResolveIn(entries, name)
    {
      if name in entries {
        var parsed := PaneAddress.Parse(entries[name]);
        if parsed.Err? {
          return Malformed(name);
        }
        return Ok(Some(parsed.value));
      }
      r := Ok(None);
    }

    /** All entries sorted by name, or the first name whose text does not parse. */
    method List() returns (r: Result<seq<(string, Address)>>)
      ensures r.Ok? <==> forall n :: n in entries ==> PaneAddress.Parse(entries[n]).Ok?
      ensures r.Ok? ==>
        var names := Lexicographic.SortedKeys(entries.Keys);
        && |r.value| == |names|
        && forall i :: 0 <= i < |names| ==>
             r.value[i].0 == names[i] && PaneAddress.Parse(entries[names[i]]) == PaneAddress.Ok(r.value[i].1)
      ensures r.Malformed? ==>
        FirstMalformed(entries, Lexicographic.SortedKeys(entries.Keys), r.name, PaneAddress.Parse)
      ensures r != InvalidName
    {
      var names := Lexicographic.SortedKeys(entries.Keys);
      r := ParseAll(entries, names, PaneAddress.Parse);
    }
  }

  // ---- runs ----

  function Run(ops: seq<Op>): (r: Entries) {
    if ops == [] then map[] else Step(Run(ops[..|ops| - 1]), ops[|ops| - 1])
  }

  /** The address of the last registration of `name` that no later unregistration has undone. */
  function LastRegistered(ops: seq<Op>, name: string): (r: Option<Address>) {
    if ops == [] then None
    else
      var op := ops[|ops| - 1];
      if op.name == name && op.Unregister? then None
      else if op.name == name && ValidName(name) then Some(op.addr)
      else LastRegistered(ops[..|ops| - 1], name)
  }

  lemma {:induction false} EntriesAlongRun(ops: seq<Op>, name: string)
    ensures name in Run(ops) <==> LastRegistered(ops, name).Some?
    ensures name in Run(ops) ==> Run(ops)[name] == PaneAddress.PrintAddress(LastRegistered(ops, name).value)
    decreases |ops|
  {
    if ops == [] {
    } else {
      EntriesAlongRun(ops[..|ops| - 1], name);
    }
  }

  lemma {:induction false} LastRegisteredWellFormed(ops: seq<Op>, name: string)
    requires forall op :: op in ops && op.Register? ==> PaneAddress.WellFormed(op.addr)
    requires LastRegistered(ops, name).Some?
    ensures PaneAddress.WellFormed(LastRegistered(ops, name).value)
    decreases |ops|
  {
    var init, op := ops[..|ops| - 1], ops[|ops| - 1];
    assert op in ops;
    if op.name == name && (op.Unregister? || ValidName(name)) {
    } else {
      LastRegisteredWellFormed(init, name);
    }
  }

  /** After any run whatever, `resolve` gives the last registered address if and only if there is none or it is
      well-formed. */
  lemma ResolveIsLastRegistered(ops: seq<Op>, name: string)
    ensures var last := LastRegistered(ops, name);
      ResolveIn(Run(ops), name) == Ok(last) <==> (last.Some? ==> PaneAddress.WellFormed(last.value))
  {
    EntriesAlongRun(ops, name);
    if name in Run(ops) {
      PaneAddress.RoundTripIff(LastRegistered(ops, name).value);
    }
  }

  /** So after any run of registrations of well-formed addresses every stored text parses, and `list` succeeds. */
  lemma WellFormedRunsList(ops: seq<Op>, name: string)
    requires forall op :: op in ops && op.Register? ==> PaneAddress.WellFormed(op.addr)
    ensures name in Run(ops) ==>
      && LastRegistered(ops, name).Some?
      && PaneAddress.Parse(Run(ops)[name]) == PaneAddress.Ok(LastRegistered(ops, name).value)
  {
    EntriesAlongRun(ops, name);
    if name in Run(ops) {
      LastRegisteredWellFormed(ops, name);
      ResolveIsLastRegistered(ops, name);
    }
  }

  /** Well-formedness is exactly what is needed: registering any address in any state is read back by
      `resolve` if and only if the address is well-formed. */
  lemma RegisterResolvesIff(entries: Entries, name: string, addr: Address)
    requires ValidName(name)
    ensures ResolveIn(Step(entries, Register(name, addr)), name) == Ok(Some(addr)) <==> PaneAddress.WellFormed(addr)
  {
    PaneAddress.RoundTripIff(addr);
  }
}
