# pronto.utils identifier helpers, modelled in Dafny

This project models the three helpers in `pronto/utils.py` that put
ontology identifiers into a canonical form and deduplicate them:

- `explicit_namespace(attr, nsmap)` expands an abbreviated attribute name
  `prefix:term` into the Clark notation `{namespace}term`.
- `format_accession(accession, nsmap=None)` removes every namespace value of
  the map from an accession. Unless the result starts with `_`, it then turns
  each `_` into `:`, so that `UO_1000003` becomes `UO:1000003`.
- `unique_everseen(iterable)` yields each element of its input the first
  time it is seen. It keeps a set of what it has already yielded.

The files are:

- `wrappers.dfy` (module `Wrappers`): `Option` and `Result`. `Result`
  carries the exception that Python would raise.
- `py_str.dfy` (module `PyStr`): the Python `str` built-ins the helpers
  rely on, over `seq<char>`. These are `startswith`, `split(':', 1)`,
  `replace` and `"".join`. `replace` scans from the left without overlapping
  matches. With an empty pattern it inserts the replacement before every
  character and at the end, as Python does. Three more definitions serve the
  model rather than the source:
  - `Find` locates the colon for `split(':', 1)`.
  - `Split` (Python's full `str.split`) and `Join` are reference definitions.
    They are used to state what `replace` does: `ReplaceIsJoinOfSplit`,
    `SplitJoin` and `SplitPiecesAvoidSeparator`.
- `namespaces.dfy` (module `Namespaces`):
  - `ExplicitNamespace`, a function.
  - `FormatAccession`, a method with the source's loop over the map values.
    It is proved against the specification function `Formatted`.
- `everseen.dfy` (module `Everseen`): `UniqueEverseen`, a method with the
  source's loop and its `seen` set. It is proved against the specification
  function `FirstOccurrences`. Lemmas then show that this function's result
  is the only sequence that has the input's elements, has no duplicates and
  follows first-occurrence order.

`explicit_namespace` can fail in two ways, and the model keeps them apart:

- An attribute without a colon fails when `attr.split(':', 1)` is unpacked
  (pronto/utils.py:113), which raises `ValueError`. The model calls this
  `MissingColon`.
- A prefix that is not in the map fails at the dictionary lookup
  (pronto/utils.py:114), which raises `KeyError`. The model calls this
  `UnknownPrefix`.

Where the code and its docstring differ, the model follows the code:

- **Where namespace values are removed.** The docstring of
  `format_accession` says the namespaces are found at the beginning of the
  accession. The code removes each value wherever `str.replace` finds it.
  It removes the values one after the other, in the map's iteration order.
  - Removing a value can create a new occurrence of it.
  - The order matters when values overlap.
  - The result is not idempotent once a map is given.

  `FormatAccessionWithNamespacesNotIdempotent` and
  `StripNamespacesOrderMatters` state these facts.

## Model

| member | source | states |
|---|---|---|
| `PyStr.Find` | pronto/utils.py:113 | the first index of the separator, absent exactly when it does not occur |
| `PyStr.SplitOnce` | pronto/utils.py:113 | `split(':', 1)` gives one piece (the string) when there is no colon; otherwise it gives two pieces around the first colon, which together rebuild the string |
| `PyStr.SplitOnceOf` | pronto/utils.py:113 | any `p + ':' + t` with no colon in `p` is split back into exactly `p` and `t`, even when `t` holds colons |
| `PyStr.ReplaceEmptyByEmpty` | pronto/utils.py:136 | removing an empty namespace value leaves the accession unchanged |
| `PyStr.ReplaceCharPointwise` | pronto/utils.py:139 | `replace('_', ':')` keeps the length and changes exactly the positions holding `_` |
| `PyStr.StartsWithChar` | pronto/utils.py:138 | `s.startswith('_')` holds exactly when `s` is not empty and its first character is `_` |
| `PyStr.Replace` | pronto/utils.py:136-139 | `str.replace` with a non-empty pattern never lengthens the string when the replacement is no longer than the pattern, and keeps its length when the two are equally long; `PyStr.ReplaceIsJoinOfSplit`, `PyStr.ReplaceCharPointwise` and `PyStr.ReplaceNotContained` state which occurrences it replaces |
| `PyStr.ReplaceNotContained` | pronto/utils.py:136 | a non-empty pattern that does not occur in the string is never replaced, so the string comes back unchanged |
| `PyStr.ReplaceAbsent` | pronto/utils.py:136 | a pattern whose first character does not occur is never replaced |
| `PyStr.SplitJoin` | pronto/utils.py:136 | joining the pieces of a split with the separator gives back the string |
| `PyStr.ReplaceIsJoinOfSplit` | pronto/utils.py:136 | `replace(v, rep)` equals `rep.join(split(v))`, so it cuts at exactly the occurrences that `split` finds |
| `PyStr.SplitPiecesAvoidSeparator` | pronto/utils.py:136 | no piece between the cut points contains the separator |
| `Namespaces.ExplicitNamespace` | pronto/utils.py:113-114 | it fails with `MissingColon` if and only if the attribute has no colon; an `UnknownPrefix` error names a prefix that is not in the map and that the attribute starts with, followed by a colon |
| `Namespaces.ExplicitNamespaceOfParts` | pronto/utils.py:113-114 | for every `prefix:term` with no colon in the prefix, the result is `{nsmap[prefix]}term` when the prefix is known, and a KeyError for that prefix otherwise |
| `Namespaces.ExplicitNamespaceOwlClass` | pronto/utils.py:108-110 | the docstring example: `owl:Class` with the OWL namespace gives `{http://www.w3.org/2002/07/owl#}Class` |
| `Namespaces.FormatAccession` | pronto/utils.py:134-141 | the loop over the map values, then the underscore step, computes `Formatted` (the values removed in iteration order, then the underscore rule) |
| `Namespaces.StripNamespacesStep` | pronto/utils.py:135-136 | one loop iteration cuts the accession at the occurrences of the value and glues the pieces back together; no piece contains the value; an empty value changes nothing |
| `Namespaces.FormatAccessionUnderscores` | pronto/utils.py:138-139 | a stripped accession starting with `_` is returned as it is; otherwise every `_` becomes `:`, the length is kept, no `_` remains and nothing else changes |
| `Namespaces.FormatAccessionIdempotent` | pronto/utils.py:134-141 | without a map, formatting an already formatted accession changes nothing |
| `Namespaces.FormatAccessionWithNamespacesNotIdempotent` | pronto/utils.py:135-136 | with the map `{ab}`, `aabb` becomes `ab`, and formatting again gives the empty string |
| `Namespaces.StripNamespacesOrderMatters` | pronto/utils.py:135-136 | with the values `a/` and `a/b/`, the accession `a/b/X_1` gives `b/X:1` in one iteration order and `X:1` in the other |
| `Namespaces.FormatAccessionUnitOntology` | pronto/utils.py:126-127 | the docstring example: `UO_1000003` gives `UO:1000003` |
| `Namespaces.FormatAccessionLeadingNamespace` | pronto/utils.py:121-122 | a namespace value at the start of the accession is cut off, and the rest is formatted as without a map, provided the value does not occur again in the rest |
| `Namespaces.FormatAccessionOboLocal` | pronto/utils.py:128-130 | the local part `IAO_0000601` of the docstring's second example is formatted to `IAO:0000601`, and the OBO namespace does not occur in it |
| `Namespaces.FormatAccessionOboPurl` | pronto/utils.py:128-130 | the docstring example: the OBO PURL of `IAO_0000601` gives `IAO:0000601` |
| `Namespaces.FormatAccessionOboInOwl` | pronto/utils.py:121-122 | with the oboInOwl namespace in the map, `http://www.geneontology.org/formats/oboInOwl#hasDbXref` gives `hasDbXref`, even though the namespace's first character occurs in `hasDbXref` |
| `Everseen.UniqueEverseen` | pronto/utils.py:143-152 | the loop with the `seen` set yields exactly `FirstOccurrences` of the input |
| `Everseen.FirstIndexSnoc` | pronto/utils.py:150 | appending an element does not move the first occurrence of an element already present; a step of `FirstOccurrencesInOrder` and `FirstOccurrencesUnique` |
| `Everseen.FirstOccurrencesMembers` | pronto/utils.py:150-152 | the output holds every element of the input and nothing else |
| `Everseen.FirstOccurrencesDistinct` | pronto/utils.py:147-152 | the output has no duplicates |
| `Everseen.FirstOccurrencesInOrder` | pronto/utils.py:144 | the output keeps the order of first occurrence in the input |
| `Everseen.FirstOccurrencesUnique` | pronto/utils.py:144 | any sequence with no duplicates, the input's elements and first-occurrence order is exactly the output |
| `Everseen.FirstOccurrencesUniqueLast` | pronto/utils.py:150-152 | a step of `FirstOccurrencesUnique`: when the input ends with a new element, every such sequence ends with it, and its front is such a sequence for the front of the input |
| `Everseen.LastOfOrderedIsNew` | pronto/utils.py:150-152 | a step of `FirstOccurrencesUnique`: an element first seen at the end of the input comes last in any such sequence |
| `Everseen.DropLastMembers` | pronto/utils.py:150-152 | a step of `FirstOccurrencesUnique`: removing the new last element from both sides keeps the two element sets equal |
| `Everseen.OrderedDropLast` | pronto/utils.py:150-152 | a step of `FirstOccurrencesUnique`: removing the last elements keeps first-occurrence order with respect to the shorter input |
| `Everseen.FirstOccurrencesOfDistinct` | pronto/utils.py:147-152 | an input without duplicates comes back unchanged |
| `Everseen.FirstOccurrencesIdempotent` | pronto/utils.py:147-152 | deduplicating twice is the same as deduplicating once |
| `Everseen.FirstOccurrencesPrefix` | pronto/utils.py:150-152 | what has been yielded after reading a prefix of the input is a prefix of the whole output, so the generator never takes an element back |
| `Everseen.FirstOccurrencesAppendSeen` | pronto/utils.py:150 | elements that were already seen add nothing to the output |
| `Everseen.FirstOccurrencesOfFirstRun` | pronto/utils.py:145 | the first run of the comment's example, followed by one new element, gives those two elements |
| `Everseen.FirstOccurrencesOfFirstRuns` | pronto/utils.py:145 | the first runs of the comment's example give its first three elements |
| `Everseen.FirstOccurrencesOfRuns` | pronto/utils.py:145 | for any four distinct elements, the pattern `AAAABBBCCDAABBB` gives `A B C D` |
| `Everseen.UniqueEverseenLetters` | pronto/utils.py:145 | the comment's example: `AAAABBBCCDAABBB` gives `ABCD` |

## Left out

- The process pool (`ProntoPool`, `_NoDaemonProcess`), the `_instances` registry, `_close_all` and its `atexit` hook (pronto/utils.py:157-223) are left out. They are about multiprocessing and interpreter shutdown, not identifier logic.
- `classproperty` (pronto/utils.py:67-78) is left out because it is a descriptor that only affects attribute access in Python.
- `ProntoWarning` and `TimeoutError` (pronto/utils.py:40-41, 80-97) are left out. They are exception and warning classes with no logic of their own.
- The `memoize` and `timeout` decorators (pronto/utils.py:14-23, 43-65) are left out because they are commented out in the source.
- The key-function form of the deduplication, `unique_everseen('ABBCcAD', str.lower)`, appears only in a comment. The function in the source takes no key, so it is not modelled.
- UniqueEverseen: the input is a finite sequence, and the output is the whole list of yielded elements. The model does not capture lazy consumption, infinite iterables or interleaving with the caller.
- UniqueEverseen: elements are compared with Dafny equality. Python's `__hash__` and `__eq__`, including unhashable elements (`TypeError`), are not modelled.
- FormatAccession: the namespace map is given as the sequence of its values in the dictionary's iteration order, because the keys are never used. Values that are not strings (which make `str.replace` raise `TypeError`) are not modelled.
- ExplicitNamespace: the map is a Dafny `map` from strings to strings. Non-string values (which make `"".join` raise `TypeError`) and a non-string `attr` (which has no `split` method) are not modelled.
- Strings are sequences of characters. Python's code points, surrogates and encodings are not modelled, since the helpers never depend on them.
