/** Identifier canonicalisation in pronto.utils: `explicit_namespace`, which
    expands an abbreviated `prefix:term` attribute name to `{namespace}term`,
    and `format_accession`, which strips namespace values from an accession
    and turns it into a `PREFIX:LOCAL` token. */
module Namespaces {
  import opened Wrappers
  import opened PyStr

  /** The two exceptions `explicit_namespace` can raise. */
  datatype NamespaceError =
    | MissingColon                   // ValueError: `attr.split(':', 1)` gives one value to unpack
    | UnknownPrefix(prefix: string)  // KeyError: the prefix is not a key of the namespace map

  /** `explicit_namespace(attr, nsmap)`: split `attr` at its first colon,
      look the prefix up in `nsmap` and wrap the namespace in braces before
      the term. */
  function ExplicitNamespace(attr: string, nsmap: map<string, string>): (r: Result<string, NamespaceError>)
    ensures r == Failure(MissingColon) <==> ':' !in attr
    ensures r.Failure? && r.error.UnknownPrefix? ==>
              r.error.prefix !in nsmap && StartsWith(attr, r.error.prefix + ":")
  {
    var parts := SplitOnce(attr, ':');
    if |parts| != 2 then Failure(MissingColon)
    else
      var prefix, term := parts[0], parts[1];
      if prefix !in nsmap then Failure(UnknownPrefix(prefix))
      else Success("{" + nsmap[prefix] + "}" + term)
  }

  /** Every attribute with a colon is `prefix + ":" + term` with no colon in
      `prefix` (SplitOnce's contract); for each such attribute the result is
      the expanded name when the prefix is known, and a KeyError for exactly
      that prefix otherwise. The term may itself contain colons. */
  lemma ExplicitNamespaceOfParts(prefix: string, term: string, nsmap: map<string, string>)
    requires ':' !in prefix
    ensures ExplicitNamespace(prefix + ":" + term, nsmap) ==
              if prefix in nsmap then Success("{" + nsmap[prefix] + "}" + term)
              else Failure(UnknownPrefix(prefix))
  {
    SplitOnceOf(prefix, ':', term);
  }

  /** The OWL namespace of the docstring's example. */
  const OwlNamespace := "http://www.w3.org/2002/07/owl#"

  /** The example of the docstring: `owl:Class` under the OWL namespace. */
  lemma ExplicitNamespaceOwlClass()
    ensures ExplicitNamespace("owl:Class", map["owl" := OwlNamespace])
            == Success("{" + OwlNamespace + "}Class")
  {
    assert "owl:Class" == "owl" + ":" + "Class";
    ExplicitNamespaceOfParts("owl", "Class", map["owl" := OwlNamespace]);
    assert "{" + OwlNamespace + "}" + "Class" == "{" + OwlNamespace + "}Class";
  }

  /** The accession after the loop of `format_accession`: each namespace value,
      in the map's iteration order, replaced by the empty string. */
  function StripNamespaces(accession: string, values: seq<string>): string
  {
    if values == [] then accession
    else Replace(StripNamespaces(accession, values[..|values| - 1]), values[|values| - 1], [])
  }

  /** The first step of `format_accession`; `nsmap` is `None` or the values of
      the namespace map in iteration order. */
  function Stripped(accession: string, nsmap: Option<seq<string>>): string
  {
    match nsmap
    case None => accession
    case Some(values) => StripNamespaces(accession, values)
  }

  /** What `format_accession` returns. */
  function Formatted(accession: string, nsmap: Option<seq<string>>): string
  {
    var stripped := Stripped(accession, nsmap);
    if StartsWith(stripped, "_") then stripped else Replace(stripped, "_", ":")
  }

  /** `format_accession(accession, nsmap)` as the loop the source runs. */
  method FormatAccession(accession: string, nsmap: Option<seq<string>>) returns (r: string)
    ensures r == Formatted(accession, nsmap)
  {
    r := accession;
    if nsmap.Some? {
      var values := nsmap.value;
      for i := 0 to |values|
        invariant r == StripNamespaces(accession, values[..i])
      {
        assert values[..i + 1][..i] == values[..i];
        r := Replace(r, values[i], []);
      }
      assert values[..|values|] == values;
    }
    if !StartsWith(r, "_") {
      r := Replace(r, "_", ":");
    }
  }

  /** One iteration of the loop removes the next namespace value `v`
      wherever the left-to-right scan finds it: the accession so far is the
      pieces of its split at `v`, joined by `v`, and the new accession is
      those pieces joined with nothing between them. No piece contains `v`.
      An empty value leaves the accession unchanged. */
  lemma StripNamespacesStep(accession: string, values: seq<string>)
    requires values != []
    ensures var before, v := StripNamespaces(accession, values[..|values| - 1]), values[|values| - 1];
            var after := StripNamespaces(accession, values);
            && (v == [] ==> after == before)
            && (v != [] ==>
                  && Join(Split(before, v), v) == before
                  && after == Join(Split(before, v), [])
                  && forall k :: 0 <= k < |Split(before, v)| ==> !Contains(Split(before, v)[k], v))
  {
    var before, v := StripNamespaces(accession, values[..|values| - 1]), values[|values| - 1];
    if v == [] {
      ReplaceEmptyByEmpty(before);
    } else {
      SplitJoin(before, v);
      ReplaceIsJoinOfSplit(before, v, []);
      SplitPiecesAvoidSeparator(before, v);
    }
  }

  /** The second step: an accession that starts with `_` after stripping is
      returned as it is; any other has every `_` turned into `:` and nothing
      else changed, so the result has the same length and no `_`. */
  lemma FormatAccessionUnderscores(accession: string, nsmap: Option<seq<string>>)
    ensures var stripped, r := Stripped(accession, nsmap), Formatted(accession, nsmap);
            && (StartsWith(stripped, "_") ==> r == stripped)
            && (!StartsWith(stripped, "_") ==>
                  && |r| == |stripped|
                  && '_' !in r
                  && forall i :: 0 <= i < |r| ==> r[i] == if stripped[i] == '_' then ':' else stripped[i])
  {
    ReplaceCharPointwise(Stripped(accession, nsmap), '_', ':');
  }

  /** Without a namespace map, formatting its own output changes nothing. */
  lemma FormatAccessionIdempotent(accession: string)
    ensures Formatted(Formatted(accession, None), None) == Formatted(accession, None)
  {
    var r := Formatted(accession, None);
    if !StartsWith(accession, "_") {
      FormatAccessionUnderscores(accession, None);
      ReplaceAbsent(r, "_", ":");
    }
  }

  /** With a namespace map, formatting is not idempotent: removing `ab` from
      `aabb` joins an `a` and a `b` into a new `ab`, which a second call
      removes. */
  lemma FormatAccessionWithNamespacesNotIdempotent()
    ensures Formatted("aabb", Some(["ab"])) == "ab"
    ensures Formatted(Formatted("aabb", Some(["ab"])), Some(["ab"])) == ""
  {
    assert ["ab"][..0] == [];
    assert "aabb" == ['a'] + ("ab" + "b");
    ReplaceAtStart("ab", "b", []);
    ReplaceAbsent("b", "ab", []);
    assert Replace("aabb", "ab", []) == "ab";
    ReplaceAtStart("ab", [], []);
  }

  /** The namespace values are removed in the map's iteration order, and the
      order matters when one value is a prefix of another. */
  lemma StripNamespacesOrderMatters()
    ensures Formatted("a/b/X_1", Some(["a/", "a/b/"])) == "b/X:1"
    ensures Formatted("a/b/X_1", Some(["a/b/", "a/"])) == "X:1"
  {
    var a, ab, x, bx := "a/", "a/b/", "X_1", "b/X_1";
    assert "a/b/X_1" == a + bx == ab + x;
    assert StripNamespaces(a + bx, [a, ab]) == bx by {
      assert [a, ab][..1] == [a] && [a][..0] == [];
      ReplaceAtStart(a, bx, []);
      ReplaceAbsent(bx, a, []);
      ReplaceAbsent(bx, ab, []);
      assert StripNamespaces(a + bx, [a]) == bx;
    }
    assert StripNamespaces(ab + x, [ab, a]) == x by {
      assert [ab, a][..1] == [ab] && [ab][..0] == [];
      ReplaceAtStart(ab, x, []);
      ReplaceAbsent(x, ab, []);
      ReplaceAbsent(x, a, []);
      assert StripNamespaces(ab + x, [ab]) == x;
    }
    assert Replace(bx, "_", ":") == "b/X:1" by {
      ReplaceCharPointwise(bx, '_', ':');
    }
    assert Replace(x, "_", ":") == "X:1" by {
      ReplaceCharPointwise(x, '_', ':');
    }
  }

  /** The docstring's first example: `UO_1000003` becomes `UO:1000003`. */
  lemma FormatAccessionUnitOntology()
    ensures Formatted("UO_1000003", None) == "UO:1000003"
  {
    ReplaceCharPointwise("UO_1000003", '_', ':');
  }

  /** A namespace value found at the beginning of the accession, as the
      docstring describes them, is cut off, and the rest is formatted as
      without a namespace map, provided the value does not occur again in the
      rest. */
  lemma FormatAccessionLeadingNamespace(namespace: string, local: string)
    requires !Contains(local, namespace)
    ensures Formatted(namespace + local, Some([namespace])) == Formatted(local, None)
  {
    assert OccursAt(local, [], 0);
    assert [namespace][..0] == [];
    assert StripNamespaces(namespace + local, [namespace]) == Replace(namespace + local, namespace, []);
    ReplaceAtStart(namespace, local, []);
    ReplaceNotContained(local, namespace, []);
    assert [] + local == local;
  }

  /** The OBO namespace of the docstring's second example. */
  const OboNamespace := "http://purl.obolibrary.org/obo/"

  /** The local part of the docstring's second example is formatted to
      `IAO:0000601`, and the OBO namespace does not occur in it. */
  lemma FormatAccessionOboLocal()
    ensures Formatted("IAO_0000601", None) == "IAO:0000601"
    ensures !Contains("IAO_0000601", OboNamespace)
  {
    StartsWithChar("IAO_0000601", '_');
    ReplaceCharPointwise("IAO_0000601", '_', ':');
    forall i: nat ensures !OccursAt("IAO_0000601", OboNamespace, i) {}
  }

  /** The docstring's second example: the OBO namespace is stripped from a
      PURL, then the underscore becomes a colon. */
  lemma FormatAccessionOboPurl()
    ensures Formatted(OboNamespace + "IAO_0000601", Some([OboNamespace])) == "IAO:0000601"
  {
    FormatAccessionOboLocal();
    FormatAccessionLeadingNamespace(OboNamespace, "IAO_0000601");
  }

  /** The oboInOwl namespace of OBO files translated to OWL. */
  const OboInOwlNamespace := "http://www.geneontology.org/formats/oboInOwl#"

  /** A namespace value is cut off even when its first character occurs in
      the rest: `oboInOwl#hasDbXref` gives `hasDbXref`. */
  lemma FormatAccessionOboInOwl()
    ensures Formatted(OboInOwlNamespace + "hasDbXref", Some([OboInOwlNamespace])) == "hasDbXref"
  {
    assert !Contains("hasDbXref", OboInOwlNamespace) by {
      forall i: nat ensures !OccursAt("hasDbXref", OboInOwlNamespace, i) {}
    }
    FormatAccessionLeadingNamespace(OboInOwlNamespace, "hasDbXref");
    StartsWithChar("hasDbXref", '_');
    ReplaceAbsent("hasDbXref", "_", ":");
  }
}
