/**
 * Assembling one genesis out of many nodes. Nodes share no file system: every file travels as base64 text that
 * a shell on the receiving node decodes.
 */
module GenesisPipeline {
  import opened Wrappers
  import opened Bytes
  import opened Base64
  import Base64Encoders
  import Base64Decoders

  type FileName = string

  /** A file's bytes, and whether `cat` can read them. */
  datatype File = File(bytes: seq<Byte>, readable: bool)

  type Files = map<FileName, File>

  /** The names that `*.json` matches. */
  predicate IsJsonFile(name: FileName) {
    |name| >= 5 && name[|name| - 5..] == ".json" && name[0] != '.'
  }

  /** Of the names that end in ".json", the pattern leaves out those that start with a dot. */
  lemma JsonNames(stem: string)
    ensures IsJsonFile(stem + ".json") <==> |stem| > 0 && stem[0] != '.'
    ensures forall name :: IsJsonFile(name) ==> |name| > 5 && name == name[..|name| - 5] + ".json"
  {
    var name := stem + ".json";
    assert name[|name| - 5..] == ".json";
    forall name | IsJsonFile(name)
      ensures |name| > 5 && name == name[..|name| - 5] + ".json"
    {
      assert name[|name| - 5..][0] == '.';
    }
  }

  function JsonFiles(files: Files): Files {
    map name | name in files && IsJsonFile(name) :: files[name]
  }

  // ---- the shell ----

  /** What a node's `base64 -d` writes for what it is given. */
  type Shell = seq<Byte> -> seq<Byte>

  const NEWLINE: Byte := 10

  /** All that is asked of that program: it decodes canonical text followed by the newline of `echo`. */
  ghost predicate DecodesEncodings(shell: Shell) {
    forall data: seq<Byte> :: shell(Encode(data) + [NEWLINE]) == data
  }

  /** The strict decoder of this repository, for one, meets that. */
  function StrictShell(text: seq<Byte>): seq<Byte> {
    Base64Decoders.Strict(Base64Decoders.WithoutSpaces(text)).UnwrapOr([])
  }

  lemma {:induction false} NewlineIsDropped(s: seq<Byte>)
    ensures Base64Decoders.WithoutSpaces(s + [NEWLINE]) == Base64Decoders.WithoutSpaces(s)
  {
    if |s| == 0 {
      assert Base64Decoders.WithoutSpaces((s + [NEWLINE])[1..]) == [];
    } else {
      NewlineIsDropped(s[1..]);
      assert (s + [NEWLINE])[1..] == s[1..] + [NEWLINE];
    }
  }

  lemma StrictShellDecodesEncodings()
    ensures DecodesEncodings(StrictShell)
  {
    forall data: seq<Byte>
      ensures StrictShell(Encode(data) + [NEWLINE]) == data
    {
      hide Encode, Base64Decoders.Strict, Base64Decoders.WithoutSpaces;
      NewlineIsDropped(Encode(data));
      Base64Decoders.CanonicalTextDecodes(data);
    }
  }

  // ---- a node ----

  /** The private files of one node: its genesis transactions by name, and its genesis file. */
  class Node {
    var gentxs: Files
    var genesis: Option<seq<Byte>>
    /** The genesis transactions that cannot be written here. */
    const unwritable: set<FileName>

    constructor (gentxs: Files, genesis: Option<seq<Byte>>, unwritable: set<FileName>)
      ensures this.gentxs == gentxs && this.genesis == genesis && this.unwritable == unwritable
    {
      this.gentxs, this.genesis, this.unwritable := gentxs, genesis, unwritable;
    }

    /** `ls -1` of the genesis transactions: every JSON file once, in whatever order. */
    method ListGentxs() returns (names: seq<FileName>)
      ensures forall name :: name in names <==> name in JsonFiles(gentxs)
      ensures |names| == |JsonFiles(gentxs)|
      ensures forall i, j :: 0 <= i < j < |names| ==> names[i] != names[j]
    {
      names := [];
      var left := JsonFiles(gentxs).Keys;
      while left != {}
        invariant forall name :: name in JsonFiles(gentxs) <==> name in left || name in names
        invariant forall name :: name in names ==> name !in left
        invariant |names| + |left| == |JsonFiles(gentxs)|
        invariant forall i, j :: 0 <= i < j < |names| ==> names[i] != names[j]
        decreases left
      {
        var name :| name in left;
        left := left - {name};
        names := names + [name];
      }
    }

    /** `echo` of the text into `base64 -d`; a write that fails may leave anything under that name. */
    method WriteGentx(shell: Shell, name: FileName, text: seq<Byte>) returns (ok: bool)
      modifies this`gentxs
      ensures ok <==> name !in unwritable
      ensures ok ==> gentxs == old(gentxs)[name := File(shell(text + [NEWLINE]), true)]
      ensures !ok ==> gentxs - {name} == old(gentxs) - {name}
    {
      ok := name !in unwritable;
      if ok {
        gentxs := gentxs[name := File(shell(text + [NEWLINE]), true)];
      } else {
        var left: File := *;
        gentxs := gentxs[name := left];
      }
    }

    method WriteGenesis(shell: Shell, text: seq<Byte>)
      modifies this`genesis
      ensures genesis == Some(shell(text + [NEWLINE]))
    {
      genesis := Some(shell(text + [NEWLINE]));
    }
  }

  // ---- copying one validator's genesis transactions ----

  /** A file that can be read, is not empty, and can be written at the other end. */
  predicate CopyableFile(files: Files, name: FileName, unwritable: set<FileName>) {
    name in files && files[name].readable && files[name].bytes != [] && name !in unwritable
  }

  predicate Copyable(files: Files, unwritable: set<FileName>) {
    forall name :: name in JsonFiles(files) ==> CopyableFile(files, name, unwritable)
  }

  /** `after` is `before` with the files of `src` named in `copied`, and only those, written over it. */
  predicate Copied(before: Files, after: Files, src: Files, copied: set<FileName>) {
    && copied <= JsonFiles(src).Keys
    && after.Keys == before.Keys + copied
    && forall name :: name in after ==> after[name] == if name in copied then src[name] else before[name]
  }

  lemma CopiedOneMore(before: Files, after: Files, src: Files, copied: set<FileName>, name: FileName)
    requires Copied(before, after, src, copied) && name in JsonFiles(src)
    ensures Copied(before, after[name := src[name]], src, copied + {name})
  {
  }

  lemma CopiedAll(before: Files, after: Files, src: Files)
    requires Copied(before, after, src, JsonFiles(src).Keys)
    ensures after == before + JsonFiles(src)
  {
  }

  lemma NothingCopied(before: Files, src: Files)
    ensures Copied(before, before, src, {})
  {
  }

  /** A write that failed afterwards concerns no file that was copied. */
  lemma CopiedWritable(before: Files, after: Files, damaged: Files, src: Files, copied: set<FileName>,
                       unwritable: set<FileName>)
    requires Copied(before, after, src, copied)
    requires forall name :: name in copied ==> CopyableFile(src, name, unwritable)
    requires damaged - unwritable == after - unwritable
    ensures Copied(before - unwritable, damaged - unwritable, src, copied)
  {
  }

  /** One turn: read, encode, write. */
  method CopyOne(shell: Shell, src: Node, primary: Node, name: FileName) returns (r: Result<(), string>)
    requires src != primary && DecodesEncodings(shell) && name in src.gentxs
    modifies primary`gentxs
    ensures var file := src.gentxs[name];
      && (r.Ok? <==> CopyableFile(src.gentxs, name, primary.unwritable))
      && (r.Ok? ==> primary.gentxs == old(primary.gentxs)[name := file])
      && (r.Err? ==> primary.gentxs - primary.unwritable == old(primary.gentxs) - primary.unwritable)
  {
    hide Encode;
    var raw := src.gentxs[name];
    if !raw.readable || raw.bytes == [] {
      return Err("read gentx");
    }
    var b64 := Base64Encoders.EncodeChunks(raw.bytes);
    var ok := primary.WriteGentx(shell, name, b64);
    if !ok {
      WithoutMore(old(primary.gentxs), primary.gentxs, name, primary.unwritable);
      return Err("write gentx");
    }
    return Ok(());
  }

  /**
   * Copies the genesis transactions of `src` onto `primary`. A file that is empty or that cannot be read or
   * written stops the copy with an error; the files copied before it stay.
   */
  method CopyGentxsToPrimary(shell: Shell, src: Node, primary: Node) returns (r: Result<nat, string>)
    requires src != primary && DecodesEncodings(shell)
    modifies primary`gentxs
    ensures r.Ok? <==> Copyable(src.gentxs, primary.unwritable)
    ensures r.Ok? ==> r.value == |JsonFiles(src.gentxs)|
    ensures r.Ok? ==> primary.gentxs == old(primary.gentxs) + JsonFiles(src.gentxs)
    ensures r.Err? ==>
      exists copied :: Copied(old(primary.gentxs) - primary.unwritable, primary.gentxs - primary.unwritable,
                              src.gentxs, copied)
  {
    assert JsonFiles(src.gentxs).Keys <= src.gentxs.Keys;
    hide Copied, DecodesEncodings, JsonFiles;
    var names := src.ListGentxs();
    var n := 0;
    ghost var before, files := primary.gentxs, src.gentxs;
    ghost var copied: set<FileName> := {};
    NothingCopied(before, files);
    for i := 0 to |names|
      invariant n == i
      invariant copied == set name | name in names[..i]
      invariant forall name :: name in copied ==> CopyableFile(files, name, primary.unwritable)
      invariant Copied(before, primary.gentxs, files, copied)
    {
      var name := names[i];
      assert name in names;
      ghost var now := primary.gentxs;
      var one := CopyOne(shell, src, primary, name);
      if one.Err? {
        CopiedWritable(before, now, primary.gentxs, files, copied, primary.unwritable);
        return Err(one.error);
      }
      CopiedOneMore(before, now, files, copied, name);
      copied := copied + {name};
      n := n + 1;
    }
    assert copied == JsonFiles(files).Keys;
    CopiedAll(before, primary.gentxs, files);
    return Ok(n);
  }

  lemma WithoutMore(x: Files, y: Files, name: FileName, names: set<FileName>)
    requires x - {name} == y - {name} && name in names
    ensures y - names == x - names
  {
    assert y - names == (y - {name}) - names && x - names == (x - {name}) - names;
  }

  // ---- collecting from all validators ----

  function GentxsOf(nodes: seq<Node>): (all: seq<Files>)
    reads nodes
    ensures |all| == |nodes|
    ensures forall i :: 0 <= i < |nodes| ==> all[i] == nodes[i].gentxs
  {
    if |nodes| == 0 then [] else [nodes[0].gentxs] + GentxsOf(nodes[1..])
  }

  /** The listed files of the sources, later sources winning on equal names. */
  function Union(own: Files, sources: seq<Files>): Files {
    if |sources| == 0 then own
    else Union(own, sources[..|sources| - 1]) + JsonFiles(sources[|sources| - 1])
  }

  /** A validator that contributes: all its listed files can be copied, and there is at least one. */
  predicate Contributes(files: Files, unwritable: set<FileName>) {
    Copyable(files, unwritable) && |JsonFiles(files)| > 0
  }

  /** A validator contributes exactly when it has JSON files, and all of them are readable, writable and not empty. */
  lemma ContributesExactly(files: Files, unwritable: set<FileName>)
    ensures Contributes(files, unwritable)
       <==> (exists name :: name in files && IsJsonFile(name))
            && forall name :: name in files && IsJsonFile(name) ==>
                 files[name].readable && files[name].bytes != [] && name !in unwritable
  {
    if |JsonFiles(files)| > 0 {
      var name :| name in JsonFiles(files).Keys;
    } else {
      assert forall name :: name in files && IsJsonFile(name) ==> name in JsonFiles(files).Keys;
    }
    assert forall name :: name in JsonFiles(files) <==> name in files && IsJsonFile(name);
    hide IsJsonFile;
  }

  /** One turn: the account of the validator is added by the chain's command, then its files are copied. */
  method CollectFrom(shell: Shell, node: Node, primary: Node, accountAdded: bool)
    returns (r: Result<nat, string>)
    requires node != primary && DecodesEncodings(shell)
    modifies primary`gentxs
    ensures r.Ok? <==> accountAdded && Contributes(node.gentxs, primary.unwritable)
    ensures r.Ok? ==> r.value == |JsonFiles(node.gentxs)|
    ensures r.Ok? ==> primary.gentxs == old(primary.gentxs) + JsonFiles(node.gentxs)
  {
    if !accountAdded {
      return Err("add_genesis_account on primary failed");
    }
    r := CopyGentxsToPrimary(shell, node, primary);
    if r.Ok? && r.value == 0 {
      return Err("validator produced no gentx files to collect");
    }
  }

  /**
   * Phase two of the pipeline: the genesis transactions of every other validator go to the first one, and
   * nothing else changes. It stops at a validator whose account cannot be added, or that does not contribute.
   */
  method CollectGentxs(shell: Shell, primary: Node, others: seq<Node>, accountAdded: nat -> bool)
    returns (r: Result<nat, string>)
    requires primary !in others && DecodesEncodings(shell)
    modifies primary`gentxs
    ensures r.Ok? <==> AllContribute(GentxsOf(others), primary.unwritable, accountAdded)
    ensures r.Ok? ==> r.value == SizesOf(GentxsOf(others))
    ensures r.Ok? ==> primary.gentxs == Union(old(primary.gentxs), GentxsOf(others))
  {
    hide Union, SizesOf, Contributes, AllContribute, JsonFiles, GentxsOf, DecodesEncodings;
    ghost var own, sources := primary.gentxs, GentxsOf(others);
    var total := 0;
    NoSources(own, sources, primary.unwritable, accountAdded);
    for i := 0 to |others|
      invariant AllContribute(sources[..i], primary.unwritable, accountAdded)
      invariant primary.gentxs == Union(own, sources[..i])
      invariant total == SizesOf(sources[..i])
    {
      OneMoreSource(own, sources, i);
      OneMoreContributes(sources, i, primary.unwritable, accountAdded);
      var copied := CollectFrom(shell, others[i], primary, accountAdded(i));
      if copied.Err? {
        return copied;
      }
      total := total + copied.value;
    }
    assert sources[..|others|] == sources;
    return Ok(total);
  }

  lemma NoSources(own: Files, sources: seq<Files>, unwritable: set<FileName>, accountAdded: nat -> bool)
    ensures AllContribute(sources[..0], unwritable, accountAdded)
    ensures Union(own, sources[..0]) == own && SizesOf(sources[..0]) == 0
  {
  }

  lemma OneMoreSource(own: Files, sources: seq<Files>, k: nat)
    requires k < |sources|
    ensures Union(own, sources[..k + 1]) == Union(own, sources[..k]) + JsonFiles(sources[k])
    ensures SizesOf(sources[..k + 1]) == SizesOf(sources[..k]) + |JsonFiles(sources[k])|
  {
    hide JsonFiles;
    var more := sources[..k + 1];
    assert more[..k] == sources[..k] && more[k] == sources[k];
  }

  lemma OneMoreContributes(sources: seq<Files>, k: nat, unwritable: set<FileName>, accountAdded: nat -> bool)
    requires k < |sources| && AllContribute(sources[..k], unwritable, accountAdded)
    ensures accountAdded(k) && Contributes(sources[k], unwritable) ==>
              AllContribute(sources[..k + 1], unwritable, accountAdded)
    ensures AllContribute(sources, unwritable, accountAdded) ==>
              accountAdded(k) && Contributes(sources[k], unwritable)
  {
    hide Contributes;
    var more := sources[..k + 1];
    if accountAdded(k) && Contributes(sources[k], unwritable) {
      forall i | 0 <= i < |more|
        ensures accountAdded(i) && Contributes(more[i], unwritable)
      {
        assert i < k ==> sources[..k][i] == more[i];
      }
    }
  }

  predicate AllContribute(sources: seq<Files>, unwritable: set<FileName>, accountAdded: nat -> bool) {
    forall i :: 0 <= i < |sources| ==> accountAdded(i) && Contributes(sources[i], unwritable)
  }

  function SizesOf(sources: seq<Files>): nat {
    if |sources| == 0 then 0
    else SizesOf(sources[..|sources| - 1]) + |JsonFiles(sources[|sources| - 1])|
  }

  /** The number of sources up to the last one that lists a name; zero when none does. */
  function LastHolder(sources: seq<Files>, name: FileName): (n: nat)
    ensures n <= |sources|
    ensures n > 0 ==> name in JsonFiles(sources[n - 1])
    ensures forall k :: n <= k < |sources| ==> name !in JsonFiles(sources[k])
  {
    if |sources| == 0 then 0
    else if name in JsonFiles(sources[|sources| - 1]) then |sources|
    else LastHolder(sources[..|sources| - 1], name)
  }

  lemma UnionOfNone(own: Files)
    ensures Union(own, []) == own
  {
  }

  lemma UnionWithLast(own: Files, sources: seq<Files>, n: nat, name: FileName)
    requires |sources| == n + 1
    ensures name in Union(own, sources)
       <==> name in JsonFiles(sources[n]) || name in Union(own, sources[..n])
    ensures name in JsonFiles(sources[n]) ==> Union(own, sources)[name] == sources[n][name]
    ensures name !in JsonFiles(sources[n]) && name in Union(own, sources) ==>
              Union(own, sources)[name] == Union(own, sources[..n])[name]
  {
  }

  lemma {:induction false} UnionByLastHolder(own: Files, sources: seq<Files>, name: FileName)
    ensures var n := LastHolder(sources, name);
      if n > 0 then name in Union(own, sources) && Union(own, sources)[name] == sources[n - 1][name]
      else (name in Union(own, sources) <==> name in own)
           && (name in own ==> Union(own, sources)[name] == own[name])
  {
    hide JsonFiles, Union;
    UnionOfNone(own);
    if |sources| == 0 {
      assert sources == [];
    } else {
      var n := |sources| - 1;
      UnionWithLast(own, sources, n, name);
      UnionByLastHolder(own, sources[..n], name);
    }
  }

  /** A name is in the union exactly when somebody has it, and it holds the bytes of the last one who does. */
  lemma UnionHoldsTheLastCopy(own: Files, sources: seq<Files>, name: FileName)
    ensures name in Union(own, sources)
       <==> (name in own || exists i :: 0 <= i < |sources| && name in JsonFiles(sources[i]))
    ensures forall i :: 0 <= i < |sources| && name in JsonFiles(sources[i])
              && (forall k :: i < k < |sources| ==> name !in JsonFiles(sources[k]))
              ==> Union(own, sources)[name] == sources[i][name]
    ensures (name in own && forall i :: 0 <= i < |sources| ==> name !in JsonFiles(sources[i]))
        ==> Union(own, sources)[name] == own[name]
  {
    hide JsonFiles, Union, LastHolder;
    UnionByLastHolder(own, sources, name);
  }

  /** When all contribute, every file they list is in the union, readable and not empty. */
  lemma CollectedFileIsPresent(own: Files, sources: seq<Files>, unwritable: set<FileName>,
                               accountAdded: nat -> bool, i: nat, name: FileName)
    requires AllContribute(sources, unwritable, accountAdded)
    requires i < |sources| && name in JsonFiles(sources[i])
    ensures name !in unwritable && name in Union(own, sources)
            && Union(own, sources)[name].readable && Union(own, sources)[name].bytes != []
  {
    hide Union, JsonFiles, LastHolder;
    UnionByLastHolder(own, sources, name);
    var last := sources[LastHolder(sources, name) - 1];
    assert Contributes(last, unwritable) && CopyableFile(last, name, unwritable);
  }

  lemma AllAccountsAdded(sources: seq<Files>, unwritable: set<FileName>, accountAdded: nat -> bool)
    requires AllContribute(sources, unwritable, accountAdded)
    ensures forall i :: 0 <= i < |sources| ==> accountAdded(i)
  {
  }

  /** When all contribute, at least one file a source is counted. */
  lemma {:induction false} EachContributes(sources: seq<Files>, unwritable: set<FileName>, accountAdded: nat -> bool)
    requires AllContribute(sources, unwritable, accountAdded)
    ensures SizesOf(sources) >= |sources|
  {
    hide JsonFiles;
    if |sources| > 0 {
      var n := |sources| - 1;
      assert forall i :: 0 <= i < n ==> sources[..n][i] == sources[i];
      assert Contributes(sources[n], unwritable);
      EachContributes(sources[..n], unwritable, accountAdded);
    }
  }

  /** No two sources, and no source and the first validator, list a file of the same name. */
  predicate NoClash(own: Files, sources: seq<Files>) {
    && (forall i :: 0 <= i < |sources| ==> JsonFiles(sources[i]).Keys !! own.Keys)
    && (forall i, k :: 0 <= i < k < |sources| ==> JsonFiles(sources[i]).Keys !! JsonFiles(sources[k]).Keys)
  }

  lemma {:induction false} UnionKeys(own: Files, sources: seq<Files>, files: Files)
    ensures files.Keys !! Union(own, sources).Keys
       <==> files.Keys !! own.Keys && forall i :: 0 <= i < |sources| ==> files.Keys !! JsonFiles(sources[i]).Keys
  {
    hide JsonFiles;
    if |sources| > 0 {
      var n := |sources| - 1;
      UnionKeys(own, sources[..n], files);
      assert Union(own, sources).Keys == Union(own, sources[..n]).Keys + JsonFiles(sources[n]).Keys;
      assert forall i :: 0 <= i < n ==> sources[..n][i] == sources[i];
    }
  }

  /** The counts that were reported add up to the files the first validator gains exactly when no names clash. */
  lemma {:induction false} CountsAddUp(own: Files, sources: seq<Files>)
    ensures |Union(own, sources)| <= |own| + SizesOf(sources)
    ensures |Union(own, sources)| == |own| + SizesOf(sources) <==> NoClash(own, sources)
  {
    hide JsonFiles;
    if |sources| > 0 {
      var n := |sources| - 1;
      var front, last := sources[..n], JsonFiles(sources[n]);
      var union := Union(own, front);
      CountsAddUp(own, front);
      UnionKeys(own, front, last);
      assert (union + last).Keys == union.Keys + last.Keys;
      assert |(union + last).Keys| == |union.Keys| + |last.Keys| - |union.Keys * last.Keys|;
      assert |union.Keys * last.Keys| == 0 <==> last.Keys !! union.Keys;
      NoClashSplits(own, sources, n);
    }
  }

  lemma NoClashSplits(own: Files, sources: seq<Files>, n: nat)
    requires |sources| == n + 1
    ensures NoClash(own, sources)
       <==> (NoClash(own, sources[..n])
             && JsonFiles(sources[n]).Keys !! own.Keys
             && forall i :: 0 <= i < n ==> JsonFiles(sources[n]).Keys !! JsonFiles(sources[..n][i]).Keys)
  {
    hide JsonFiles;
    assert forall i :: 0 <= i < n ==> sources[..n][i] == sources[i];
  }

  // ---- distribution ----

  /** Gives every other node the genesis file of the first validator; a missing file is sent as an empty one. */
  method DistributeGenesis(shell: Shell, primary: Node, others: seq<Node>)
    requires primary !in others && DecodesEncodings(shell)
    modifies others`genesis
    ensures forall node :: node in others ==> node.genesis == Some(primary.genesis.UnwrapOr([]))
  {
    hide Encode;
    var bytes := primary.genesis.UnwrapOr([]);
    var genesisB64 := Base64Encoders.EncodeChunks(bytes);
    for i := 0 to |others|
      invariant forall k :: 0 <= k < i ==> others[k].genesis == Some(bytes)
    {
      others[i].WriteGenesis(shell, genesisB64);
    }
  }

  /** What the chain's own commands and the configured modifier answer. */
  datatype Chain = Chain(
    accountAdded: nat -> bool,                // adding the account of another validator
    walletsAdded: bool,                       // adding the extra wallets and the faucet
    collect: Files -> Option<seq<Byte>>,      // the genesis made of the collected transactions
    countGentxs: seq<Byte> -> Option<nat>,    // the length of its `gen_txs`, unless it does not parse
    replaceDenom: seq<Byte> -> seq<Byte>,     // the staking denomination replaced
    adjust: Option<seq<Byte> -> Result<seq<Byte>, string>>)

  /** The genesis all nodes are meant to hold, or nothing where the pipeline stops. */
  function FinalGenesis(chain: Chain, gentxs: Files, validators: nat): Option<seq<Byte>> {
    match chain.collect(gentxs)
    case None => None
    case Some(collected) =>
      match chain.countGentxs(collected)
      case None => None
      case Some(n) =>
        var replaced := chain.replaceDenom(collected);
        if n < validators then None
        else if chain.adjust.None? then Some(replaced)
        else
          match chain.adjust.value(replaced)
          case Ok(modified) => Some(modified)
          case Err(_) => None
  }

  /**
   * The final genesis exists exactly when collecting gives one that parses and has enough transactions, and the
   * modifier, where there is one, accepts it with its denomination replaced. It is what the modifier answered,
   * or without one the genesis with its denomination replaced.
   */
  lemma FinalGenesisExactly(chain: Chain, gentxs: Files, validators: nat, genesis: seq<Byte>)
    ensures FinalGenesis(chain, gentxs, validators) == Some(genesis)
       <==> exists collected: seq<Byte> ::
              && chain.collect(gentxs) == Some(collected)
              && chain.countGentxs(collected).Some? && chain.countGentxs(collected).value >= validators
              && (chain.adjust == None ==> genesis == chain.replaceDenom(collected))
              && (chain.adjust.Some? ==> chain.adjust.value(chain.replaceDenom(collected)) == Ok(genesis))
  {
  }

  /** The modified genesis of a collected one with enough transactions and its denomination replaced. */
  predicate IsOutcome(chain: Chain, gentxs: Files, validators: nat, genesis: Option<seq<Byte>>) {
    match (chain.collect(gentxs), genesis)
    case (Some(collected), Some(bytes)) =>
      && (match chain.countGentxs(collected) case Some(n) => n >= validators case None => false)
      && (match chain.adjust
          case None => bytes == chain.replaceDenom(collected)
          case Some(adjust) => adjust(chain.replaceDenom(collected)) == Ok(bytes))
    case _ => false
  }

  /** What the replacement of the denomination establishes and the modifier keeps, the final genesis has. */
  lemma ReplacementReachesTheEnd(chain: Chain, gentxs: Files, validators: nat, P: seq<Byte> -> bool)
    requires forall collected :: P(chain.replaceDenom(collected))
    requires chain.adjust.Some? ==>
      forall genesis :: P(genesis) && chain.adjust.value(genesis).Ok? ==> P(chain.adjust.value(genesis).value)
    ensures FinalGenesis(chain, gentxs, validators).Some? ==> P(FinalGenesis(chain, gentxs, validators).value)
  {
  }

  /** From the chain's collecting command to the modified genesis of the first validator. */
  method FinishGenesis(shell: Shell, primary: Node, validators: nat, chain: Chain) returns (r: Result<(), string>)
    requires DecodesEncodings(shell)
    modifies primary`genesis
    ensures r.Ok? <==> FinalGenesis(chain, primary.gentxs, validators).Some?
    ensures r.Ok? ==> primary.genesis == FinalGenesis(chain, primary.gentxs, validators)
    ensures r.Ok? ==> IsOutcome(chain, primary.gentxs, validators, primary.genesis)
  {
    hide Encode;
    var collected := chain.collect(primary.gentxs);
    if collected.None? {
      return Err("collect-gentxs failed");
    }
    primary.genesis := collected;
    var n := chain.countGentxs(collected.value);
    if n.None? {
      return Err("parse genesis after collect-gentxs");
    }
    if n.value < validators {
      return Err("too few genesis gentxs");
    }
    var replaced := chain.replaceDenom(collected.value);
    primary.genesis := Some(replaced);
    if chain.adjust.Some? {
      var modified := chain.adjust.value(replaced);
      if modified.Err? {
        return Err(modified.error);
      }
      var genesisB64 := Base64Encoders.EncodeChunks(modified.value);
      primary.WriteGenesis(shell, genesisB64);
    }
    return Ok(());
  }

  /**
   * The pipeline from its second phase on, and the distribution after it. It succeeds exactly when every
   * validator contributes and the chain's commands do their part; then the chain made the genesis of the union
   * of all genesis transactions, and every validator and full node holds it.
   */
  method AssembleGenesis(shell: Shell, primary: Node, others: seq<Node>, fullNodes: seq<Node>, chain: Chain)
    returns (r: Result<nat, string>)
    requires primary !in others && primary !in fullNodes && DecodesEncodings(shell)
    modifies primary, others`genesis, fullNodes`genesis
    ensures
      var sources := old(GentxsOf(others));
      var union, n := Union(old(primary.gentxs), sources), 1 + |others|;
      && (r.Ok? <==> AllContribute(sources, primary.unwritable, chain.accountAdded) && chain.walletsAdded
                     && FinalGenesis(chain, union, n).Some?)
      && (r.Ok? ==> primary.gentxs == union && r.value == SizesOf(sources))
      && (r.Ok? ==> primary.genesis == FinalGenesis(chain, union, n) && IsOutcome(chain, union, n, primary.genesis))
    ensures r.Ok? ==> forall node :: node in others ==> node.genesis == primary.genesis
    ensures r.Ok? ==> forall node :: node in fullNodes ==> node.genesis == primary.genesis
    ensures r.Ok? ==> r.value >= |others|
    ensures r.Ok? ==> forall i: nat :: i < |others| ==> chain.accountAdded(i)
  {
    hide Union, SizesOf, AllContribute, GentxsOf, DecodesEncodings, FinalGenesis, IsOutcome;
    r := CollectGentxs(shell, primary, others, chain.accountAdded);
    if r.Err? {
      return;
    }
    EachContributes(old(GentxsOf(others)), primary.unwritable, chain.accountAdded);
    AllAccountsAdded(old(GentxsOf(others)), primary.unwritable, chain.accountAdded);
    if !chain.walletsAdded {
      return Err("add_genesis_account failed");
    }
    var finished := FinishGenesis(shell, primary, 1 + |others|, chain);
    if finished.Err? {
      return Err(finished.error);
    }
    DistributeGenesis(shell, primary, others + fullNodes);
  }
}
