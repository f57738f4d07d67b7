/** The per-model extension registry: `xtend` appends a block to the list
    kept for a model name, and `extensions` returns the whole registry.
    Blocks are opaque values. */
module Extensions {

  /** The list for `name`, or the empty list `@extensions[name] ||= []`
      starts from. */
  function BlocksOf<Block>(m: map<string, seq<Block>>, name: string): seq<Block> {
    if name in m then m[name] else []
  }

  /** The registry that a sequence of `xtend(name, block)` calls builds from
      an empty one. */
  function Registry<Block>(calls: seq<(string, Block)>): map<string, seq<Block>> {
    if calls == [] then map[]
    else
      var prev := Registry(calls[..|calls| - 1]);
      var (name, block) := calls[|calls| - 1];
      prev[name := BlocksOf(prev, name) + [block]]
  }

  /** The blocks of the calls for `name`, in call order. */
  function BlocksFor<Block>(calls: seq<(string, Block)>, name: string): seq<Block> {
    if calls == [] then []
    else
      var rest := BlocksFor(calls[..|calls| - 1], name);
      if calls[|calls| - 1].0 == name then rest + [calls[|calls| - 1].1] else rest
  }

  /** Whether some call was for `name`. */
  predicate Called<Block>(calls: seq<(string, Block)>, name: string) {
    exists i | 0 <= i < |calls| :: calls[i].0 == name
  }

  /** The registry holds exactly the names that were extended, each with the
      blocks of its calls, one entry per call, in call order. */
  lemma {:induction false} RegistryContents<Block>(calls: seq<(string, Block)>, name: string)
    ensures name in Registry(calls) <==> Called(calls, name)
    ensures BlocksOf(Registry(calls), name) == BlocksFor(calls, name)
    ensures |BlocksOf(Registry(calls), name)| <= |calls|
  {
    if calls != [] {
      var init := calls[..|calls| - 1];
      RegistryContents(init, name);
      if Called(calls, name) && calls[|calls| - 1].0 != name {
        var i :| 0 <= i < |calls| && calls[i].0 == name;
        assert init[i].0 == name;
      }
      if Called(init, name) {
        var i :| 0 <= i < |init| && init[i].0 == name;
        assert calls[i].0 == name;
      }
    }
  }

  /** A registry only ever grows: later calls keep every earlier block of
      every name, in place, at the front of its list. */
  lemma {:induction false} RegistryGrows<Block>(calls: seq<(string, Block)>, more: seq<(string, Block)>, name: string)
    ensures BlocksOf(Registry(calls), name) <= BlocksOf(Registry(calls + more), name)
  {
    if more != [] {
      var all := calls + more;
      assert all[..|all| - 1] == calls + more[..|more| - 1];
      RegistryGrows(calls, more[..|more| - 1], name);
    } else {
      assert calls + more == calls;
    }
  }

  /** The module-level registry of `Ooor`. */
  class ExtensionRegistry<Block> {
    /** `@extensions`, read as empty before its first use. */
    var extensions: map<string, seq<Block>>
    /** The `xtend` calls made so far. */
    ghost var calls: seq<(string, Block)>

    ghost predicate Valid()
      reads this
    {
      extensions == Registry(calls)
    }

    /** A fresh module: no calls, an empty registry. */
    constructor()
      ensures Valid() && calls == [] && extensions == map[]
    {
      extensions := map[];
      calls := [];
    }

    /** `xtend(model_name, &block)`: appends the block to the list for the
        name (a one-element list for a new name), leaves every other name's
        list alone, and returns the whole registry. */
    method Xtend(modelName: string, block: Block) returns (r: map<string, seq<Block>>)
      requires Valid()
      modifies this
      ensures Valid()
      ensures calls == old(calls) + [(modelName, block)]
      ensures extensions == old(extensions)[modelName := BlocksOf(old(extensions), modelName) + [block]]
      ensures r == extensions
    {
      var blocks := if modelName in extensions then extensions[modelName] else [];
      extensions := extensions[modelName := blocks + [block]];
      calls := calls + [(modelName, block)];
      r := extensions;
      assert calls[..|calls| - 1] == old(calls);
    }

    /** `extensions`: the registry built by the calls so far. */
    method Extensions() returns (r: map<string, seq<Block>>)
      requires Valid()
      ensures r == Registry(calls)
      ensures forall name :: (name in r <==> Called(calls, name))
      ensures forall name | name in r :: r[name] == BlocksFor(calls, name)
    {
      r := extensions;
      forall name
        ensures name in r <==> Called(calls, name)
        ensures name in r ==> r[name] == BlocksFor(calls, name)
      {
        RegistryContents(calls, name);
      }
    }
  }
}
