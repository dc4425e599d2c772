/**
  Standard resource classes of an OpenStack cloud: the ordered registry of
  standard class names, the reserved namespace for custom classes, and the
  symbol table the package builds from the registry when it is loaded.
 */
module ResourceClasses {

  /* ------------------------------------------------------------------ */
  /* The registry                                                        */
  /* ------------------------------------------------------------------ */

  /** The standard resource classes, in the order they were added. A class's
      position is the database id it had before the registry existed, so the
      list only ever grows at its end. */
  const OrderedClasses: seq<string> := [
    "VCPU",               // virtual CPUs
    "MEMORY_MB",          // memory megabytes
    "DISK_GB",            // disk gigabytes
    "PCI_DEVICE",
    "SRIOV_NET_VF",
    "NUMA_SOCKET",
    "NUMA_CORE",
    "NUMA_THREAD",
    "NUMA_MEMORY_MB",
    "IPV4_ADDRESS",
    "VGPU",
    "VGPU_DISPLAY_HEAD"
  ]

  /** The prefix every custom resource class begins with. */
  const CustomNamespace: string := "CUSTOM_"

  /* ------------------------------------------------------------------ */
  /* The custom namespace                                                */
  /* ------------------------------------------------------------------ */

  /** Python's `str.startswith`, compared one character at a time. */
  function StartsWith(s: string, prefix: string): (b: bool)
  {
    if prefix == [] then true
    else s != [] && s[0] == prefix[0] && StartsWith(s[1..], prefix[1..])
  }

  /** The character-by-character comparison agrees with "the first |prefix|
      characters of s are prefix". */
  lemma {:induction false} StartsWithIsPrefix(s: string, prefix: string)
    ensures StartsWith(s, prefix) <==> |prefix| <= |s| && s[..|prefix|] == prefix
  {
    if prefix != [] && s != [] {
      StartsWithIsPrefix(s[1..], prefix[1..]);
      if |prefix| <= |s| {
        assert s[..|prefix|] == [s[0]] + s[1..][..|prefix| - 1];
        assert prefix == [prefix[0]] + prefix[1..];
      }
    }
  }

  /** A resource class is custom exactly when it begins with the custom
      namespace; nothing after the prefix is inspected. */
  function IsCustom(resourceClass: string): (custom: bool)
    ensures custom <==>
      |CustomNamespace| <= |resourceClass| &&
      resourceClass[..|CustomNamespace|] == CustomNamespace
  {
    StartsWithIsPrefix(resourceClass, CustomNamespace);
    StartsWith(resourceClass, CustomNamespace)
  }

  /** Every string formed by the namespace and any suffix is custom. */
  lemma CustomNamespacePlusAnything(suffix: string)
    ensures IsCustom(CustomNamespace + suffix)
  {
    assert (CustomNamespace + suffix)[..|CustomNamespace|] == CustomNamespace;
  }

  /** Conversely, a custom class is the namespace followed by the rest of it. */
  lemma CustomSplitsAtNamespace(resourceClass: string)
    requires IsCustom(resourceClass)
    ensures resourceClass == CustomNamespace + resourceClass[|CustomNamespace|..]
  {
    assert resourceClass == resourceClass[..|CustomNamespace|] + resourceClass[|CustomNamespace|..];
  }

  /** The boundary cases: the bare prefix is custom; the empty string, the
      prefix without its underscore and a standard name are not. */
  lemma IsCustomExamples()
    ensures IsCustom("CUSTOM_")
    ensures IsCustom("CUSTOM_FOO")
    ensures !IsCustom("")
    ensures !IsCustom("CUSTOM")
    ensures !IsCustom("VCPU")
  {
    assert "CUSTOM_FOO"[..7] == "CUSTOM_";
    assert "VCPU"[..] == "VCPU";
  }

  /** No standard class lies in the custom namespace. */
  lemma StandardClassesAreNotCustom()
    ensures forall i :: 0 <= i < |OrderedClasses| ==> !IsCustom(OrderedClasses[i])
  {
    forall i | 0 <= i < |OrderedClasses|
      ensures !IsCustom(OrderedClasses[i])
    {
      var name := OrderedClasses[i];
      if |CustomNamespace| <= |name| {
        // Every standard name that is long enough differs from the
        // namespace within its first seven characters.
        assert name[..|CustomNamespace|] != CustomNamespace by {
          assert name[0] != 'C';
        }
      }
    }
  }

  /* ------------------------------------------------------------------ */
  /* Shape of the registry                                               */
  /* ------------------------------------------------------------------ */

  /** A character allowed in a standard class name. */
  predicate IsNameChar(c: char)
  {
    ('A' <= c <= 'Z') || ('0' <= c <= '9') || c == '_'
  }

  /** A standard class name: an upper-case letter followed by upper-case
      letters, digits and underscores. */
  predicate IsStandardName(name: string)
  {
    |name| > 0 && 'A' <= name[0] <= 'Z' &&
    forall k :: 0 <= k < |name| ==> IsNameChar(name[k])
  }

  /** No name occurs twice. */
  predicate Distinct(names: seq<string>)
  {
    forall i, j :: 0 <= i < j < |names| ==> names[i] != names[j]
  }

  /** The first three ids, the length and the last entry of the registry. */
  lemma RegistryShape()
    ensures |OrderedClasses| == 12
    ensures OrderedClasses[0] == "VCPU"
    ensures OrderedClasses[1] == "MEMORY_MB"
    ensures OrderedClasses[2] == "DISK_GB"
    ensures OrderedClasses[|OrderedClasses| - 1] == "VGPU_DISPLAY_HEAD"
  {
  }

  /** Every registry entry is a well-formed standard name. */
  lemma RegistryNamesAreStandard()
    ensures forall i :: 0 <= i < |OrderedClasses| ==> IsStandardName(OrderedClasses[i])
  {
  }

  /** No standard class appears twice in the registry. */
  lemma RegistryIsDistinct()
    ensures Distinct(OrderedClasses)
  {
  }

  /* ------------------------------------------------------------------ */
  /* Ids and the append-only rule                                        */
  /* ------------------------------------------------------------------ */

  /** The id of a class: the position of its first occurrence. */
  function IndexOf(names: seq<string>, name: string): (id: nat)
    requires name in names
    ensures id < |names| && names[id] == name
    ensures forall j :: 0 <= j < id ==> names[j] != name
  {
    if names[0] == name then 0 else 1 + IndexOf(names[1..], name)
  }

  /** In a list without repetitions, the id of the entry at position i is i:
      an id names exactly one class and a class has exactly one id. */
  lemma IdOfPosition(names: seq<string>, i: nat)
    requires Distinct(names) && i < |names|
    ensures IndexOf(names, names[i]) == i
  {
  }

  /** Every standard class's id is its position in the registry. */
  lemma RegistryIdsArePositions()
    ensures forall i :: 0 <= i < |OrderedClasses| ==> IndexOf(OrderedClasses, OrderedClasses[i]) == i
  {
    RegistryIsDistinct();
    forall i | 0 <= i < |OrderedClasses|
      ensures IndexOf(OrderedClasses, OrderedClasses[i]) == i
    {
      IdOfPosition(OrderedClasses, i);
    }
  }

  /** A later version of a registry keeps every earlier entry where it was. */
  predicate Extends(older: seq<string>, newer: seq<string>)
  {
    |older| <= |newer| && newer[..|older|] == older
  }

  /** Appending at the end is an extension, and positions before the old
      end are untouched. */
  lemma AppendExtends(older: seq<string>, extra: seq<string>)
    ensures Extends(older, older + extra)
    ensures forall i :: 0 <= i < |older| ==> (older + extra)[i] == older[i]
  {
    assert (older + extra)[..|older|] == older;
  }

  /** Extensions compose: a chain of releases, each appending, is still an
      extension of the first. */
  lemma ExtendsTransitive(a: seq<string>, b: seq<string>, c: seq<string>)
    requires Extends(a, b) && Extends(b, c)
    ensures Extends(a, c)
  {
    assert c[..|a|] == c[..|b|][..|a|];
  }

  /** The id of a class already in a registry does not change when the
      registry is extended. */
  lemma IdStableUnderExtension(older: seq<string>, newer: seq<string>, name: string)
    requires Extends(older, newer) && name in older
    ensures name in newer
    ensures IndexOf(newer, name) == IndexOf(older, name)
  {
    // The first occurrence in newer lies in its prefix, which is older.
    assert newer[IndexOf(older, name)] == name;
  }

  /** Both directions of the append-only rule: a registry extends another
      exactly when it is the other followed by something. */
  lemma ExtendsIffAppend(older: seq<string>, newer: seq<string>)
    ensures Extends(older, newer) <==> exists extra :: newer == older + extra
  {
    if Extends(older, newer) {
      assert newer == older + newer[|older|..];
    }
    if exists extra :: newer == older + extra {
      var extra :| newer == older + extra;
      AppendExtends(older, extra);
    }
  }

  /* ------------------------------------------------------------------ */
  /* The symbol table                                                    */
  /* ------------------------------------------------------------------ */

  /** The module-level name the symbol loop iterates with. Python has no
      block scope, so it is a package attribute as well. */
  const LoopVariable: string := "resource_class"

  /** The loop variable's name is lower case, so it is no standard class and
      binding it never overwrites a class symbol. */
  lemma LoopVariableIsNotAClass()
    ensures LoopVariable !in OrderedClasses
  {
  }

  /** The string-valued symbols after the loop has bound every name of
      `classes`, in order, starting from `package`: each name is bound to
      itself, the loop variable (once the loop has run) to the last name, and
      every other symbol keeps its old value. */
  ghost predicate BoundAfter(package: map<string, string>, classes: seq<string>, symbols: map<string, string>)
  {
    && (forall j :: 0 <= j < |classes| ==> classes[j] in symbols && symbols[classes[j]] == classes[j])
    && (|classes| > 0 ==> LoopVariable in symbols && symbols[LoopVariable] == classes[|classes| - 1])
    && (forall name :: name in package && name !in classes && (|classes| == 0 || name != LoopVariable) ==>
          name in symbols && symbols[name] == package[name])
    && symbols.Keys == package.Keys + (set name | name in classes) + (if |classes| == 0 then {} else {LoopVariable})
  }

  /** One turn of the loop: rebinding the loop variable to the next class and
      then binding that class to itself extends the bound prefix by one. */
  lemma BindStep(package: map<string, string>, classes: seq<string>, i: nat, symbols: map<string, string>)
    requires i < |classes| && LoopVariable !in classes
    requires BoundAfter(package, classes[..i], symbols)
    ensures BoundAfter(package, classes[..i + 1], symbols[LoopVariable := classes[i]][classes[i] := classes[i]])
  {
    var next, done, done' := classes[i], classes[..i], classes[..i + 1];
    var symbols' := symbols[LoopVariable := next][next := next];
    assert done' == done + [next];
    forall j | 0 <= j < |done'|
      ensures done'[j] in symbols' && symbols'[done'[j]] == done'[j]
    {
      if j < i {
        assert done'[j] == done[j];
      }
    }
    assert (set name | name in done') == (set name | name in done) + {next};
  }

  /** Loading the package binds, for every standard class, a symbol of that
      name whose value is the name itself. `package` holds the
      string-valued symbols bound before the loop runs. The loop variable is
      itself a package attribute and stays bound to the last entry. */
  method BindSymbols(package: map<string, string>) returns (symbols: map<string, string>)
    ensures forall i :: 0 <= i < |OrderedClasses| ==>
      OrderedClasses[i] in symbols && symbols[OrderedClasses[i]] == OrderedClasses[i]
    ensures LoopVariable in symbols && symbols[LoopVariable] == OrderedClasses[|OrderedClasses| - 1]
    ensures forall name :: name in package && name !in OrderedClasses && name != LoopVariable ==>
      name in symbols && symbols[name] == package[name]
    ensures symbols.Keys == package.Keys + (set name | name in OrderedClasses) + {LoopVariable}
    ensures "VCPU" in symbols && symbols["VCPU"] == OrderedClasses[0]
    ensures "DISK_GB" in symbols && symbols["DISK_GB"] == OrderedClasses[2]
  {
    LoopVariableIsNotAClass();
    symbols := package;
    for i := 0 to |OrderedClasses|
      invariant BoundAfter(package, OrderedClasses[..i], symbols)
    {
      var resourceClass := OrderedClasses[i];
      BindStep(package, OrderedClasses, i, symbols);
      // The `for` statement rebinds the loop variable, then `setattr` binds the class.
      symbols := symbols[LoopVariable := resourceClass];
      symbols := symbols[resourceClass := resourceClass];
    }
    assert OrderedClasses[..|OrderedClasses|] == OrderedClasses;
    assert BoundAfter(package, OrderedClasses, symbols);
    // The tests look up VCPU and DISK_GB, entries 0 and 2.
    RegistryShape();
  }
}
