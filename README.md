# os-resource-classes, modelled in Dafny

`os_resource_classes` is the package of standard resource-class names used by
OpenStack. A resource class is a countable kind of thing in a cloud, such as
`VCPU` or `DISK_GB`. The package has three parts, and the module
`ResourceClasses` in `resource_classes.dfy` models each one:

- **The registry.** `ORDERED_CLASSES` is an ordered list of the twelve standard
  names. A name's position is the database id it had before the package
  existed. So the list is append-only: new classes go at the end, and no entry
  moves. It is modelled as the constant `OrderedClasses`. The id of a class is
  its first position, `IndexOf`. The predicate `Extends(older, newer)` states
  the append-only rule between two versions of the list.
- **The custom namespace.** `CUSTOM_NAMESPACE` is `"CUSTOM_"`. `is_custom`
  tests whether a name starts with it. `IsCustom` models this through
  `StartsWith`, a character-by-character model of Python's `str.startswith`.
- **The symbol table.** When the package loads, a loop binds one package
  attribute for each registry entry, and its value is the entry's own string.
  The method `BindSymbols` models this. It starts from the string-valued
  attributes already bound, inserts `name := name` once per entry in a `for`
  loop, and returns the resulting map. The loop variable `resource_class` is
  left bound as a package attribute too, as in Python.

## Model

| member | source | states |
|---|---|---|
| `ResourceClasses.StartsWithIsPrefix` | os_resource_classes/__init__.py:51 | `StartsWith` models `str.startswith` on strings. This lemma proves that the character-by-character test holds exactly when the first `\|prefix\|` characters of the string equal the prefix. Proved by induction. |
| `ResourceClasses.IsCustom` | os_resource_classes/__init__.py:48-51 | A name is custom if and only if it is at least as long as `"CUSTOM_"` and begins with `"CUSTOM_"`. Nothing after the prefix is examined. |
| `ResourceClasses.CustomNamespacePlusAnything` | os_resource_classes/__init__.py:48-51 | `"CUSTOM_"` followed by any suffix is custom, including the empty suffix. |
| `ResourceClasses.CustomSplitsAtNamespace` | os_resource_classes/__init__.py:48-51 | Every custom name equals `"CUSTOM_"` followed by the rest of the name. This is the converse of the previous row. |
| `ResourceClasses.IsCustomExamples` | os_resource_classes/__init__.py:48-51 | `"CUSTOM_"` and `"CUSTOM_FOO"` are custom. `""`, `"CUSTOM"` and `"VCPU"` are not. |
| `ResourceClasses.StandardClassesAreNotCustom` | os_resource_classes/__init__.py:11-14 | No entry of the registry is custom, so the standard and custom namespaces are disjoint. |
| `ResourceClasses.RegistryShape` | os_resource_classes/__init__.py:29-45 | The registry has 12 entries. Ids 0, 1 and 2 are `VCPU`, `MEMORY_MB` and `DISK_GB`, and the last entry is `VGPU_DISPLAY_HEAD`. |
| `ResourceClasses.RegistryNamesAreStandard` | os_resource_classes/__init__.py:3-6 | Every registry entry begins with an upper-case ASCII letter and contains only upper-case ASCII letters, digits and underscores. |
| `ResourceClasses.RegistryIsDistinct` | os_resource_classes/__init__.py:29-45 | The registry entries are pairwise distinct. |
| `ResourceClasses.IndexOf` | os_resource_classes/__init__.py:23-25 | The id of a name in a list is a valid position that holds the name, and no earlier position holds it. |
| `ResourceClasses.IdOfPosition` | os_resource_classes/__init__.py:23-25 | In a list without repeated names, the id of the entry at position `i` is `i`. |
| `ResourceClasses.RegistryIdsArePositions` | os_resource_classes/__init__.py:23-45 | Every standard class's id is its position in the registry, so an id identifies exactly one class. |
| `ResourceClasses.AppendExtends` | os_resource_classes/__init__.py:28 | Appending entries at the end yields an extension, and every old position keeps its entry. |
| `ResourceClasses.ExtendsIffAppend` | os_resource_classes/__init__.py:28 | A list extends another if and only if it is that list followed by some further entries. |
| `ResourceClasses.ExtendsTransitive` | os_resource_classes/__init__.py:28 | An extension of an extension is an extension, so a run of append-only releases keeps every original position. |
| `ResourceClasses.IdStableUnderExtension` | os_resource_classes/__init__.py:23-28 | When a list is extended, every name already in it keeps its id, because its first occurrence lies in the unchanged prefix. |
| `ResourceClasses.LoopVariableIsNotAClass` | os_resource_classes/__init__.py:31-44 | The loop variable's name `resource_class` is not a registry entry, so binding it never overwrites a class symbol. |
| `ResourceClasses.BindStep` | os_resource_classes/__init__.py:56-57 | One turn of the loop rebinds `resource_class` to the next entry and then binds that entry to itself. This keeps the invariant that the entries processed so far are bound to themselves, `resource_class` is bound to the latest one, and every other symbol keeps its value. This holds for any list that does not contain `resource_class`. |
| `ResourceClasses.BindSymbols` | os_resource_classes/__init__.py:54-57 | After the loop, every registry name is bound to itself. The loop variable `resource_class`, a package attribute because Python has no block scope, ends bound to the last entry, `VGPU_DISPLAY_HEAD`. Any previously bound name other than these keeps its old value. The bound names are exactly the old names, the registry names and `resource_class`. In particular, `VCPU` maps to the registry's entry 0 and `DISK_GB` to its entry 2, as the package's tests check. |

## Left out

- The reflection mechanism is not modelled. The source fetches its own module object through `sys.modules` and calls `setattr` on it. `BindSymbols` models only the effect of that loop, as a map from names to string values.
- The package's other attributes are not modelled. `ORDERED_CLASSES` (a list) and `is_custom` (a function) are attributes of the package too, but the map only holds string values. The loop does not touch them, and `OrderedClasses` is a constant, so "the registry is unchanged by the loop" holds by construction.
- `is_custom` on a non-string argument is not modelled. In Python such a call raises an error (`AttributeError` for most non-strings, `TypeError` for `bytes`) or calls the argument's own `startswith`; here the parameter is typed `string`.
- A name-normalisation helper (`normalize_name`, which derives a custom class name from free text) is not part of this model. It is not in `os_resource_classes/__init__.py`, which is the file modelled here.
- The test scaffolding (`base.TestCase`) is not modelled. The four assertions of the two tests are stated as facts in `RegistryShape` (entries 0 and 2) and as ensures clauses of `BindSymbols` (the `VCPU` and `DISK_GB` symbols).
