/** `GWASCatalog::Prefixes` and `GWASCatalog.prefixes`: the `@prefix`
    directives printed before the blocks when prefixes are requested. */
module Prefixes {
  import opened RubyString
  import opened StudyTurtle

  /** The prefix table, in the Hash's insertion order. */
  const Table: seq<(string, string)> := [
    ("rdf", "<http://www.w3.org/1999/02/22-rdf-syntax-ns#>"),
    ("terms", "<http://med2rdf.org/gwascatalog/terms/>"),
    ("gwas", "<http://rdf.ebi.ac.uk/terms/gwas/>"),
    ("oban", "<http://purl.org/oban/>"),
    ("owl", "<http://www.w3.org/2002/07/owl#>"),
    ("xsd", "<http://www.w3.org/2001/XMLSchema#>"),
    ("rdfs", "<http://www.w3.org/2000/01/rdf-schema#>"),
    ("ro", "<http://www.obofoundry.org/ro/ro.owl#>"),
    ("study", "<http://www.ebi.ac.uk/gwas/studies/>"),
    ("dct", "<http://purl.org/dc/terms/>"),
    ("pubmed", "<http://rdf.ncbi.nlm.nih.gov/pubmed/>")
  ]

  /** `"@prefix #{pfx}: #{uri} .\n"` without its line feed. */
  function Directive(name: string, iri: string): (d: string)
    ensures StartsWith(d, "@prefix " + name + ": ")
    ensures EndsWith(d, iri + " .")
    ensures |d| == |"@prefix " + name + ": "| + |iri| + 2
  {
    var head := "@prefix " + name + ": ";
    assert (head + iri + " .")[..|head|] == head;
    assert (head + iri + " .")[|head|..] == iri + " .";
    head + iri + " ."
  }

  /** The lines `GWASCatalog.prefixes` prints: one directive per table
      entry in table order, then the blank line of `puts "\n"`. */
  function PrefixBlock(): (lines: seq<string>)
    ensures |lines| == |Table| + 1 && lines[|Table|] == ""
    ensures forall i :: 0 <= i < |Table| ==> lines[i] == Directive(Table[i].0, Table[i].1)
    ensures forall i :: 0 <= i < |Table| ==> StartsWith(lines[i], "@prefix " + Table[i].0 + ": ")
  {
    var directives := seq(|Table|, i requires 0 <= i < |Table| => Directive(Table[i].0, Table[i].1));
    directives + [""]
  }

  /** `GWASCatalog.prefixes`: the `each` loop over the table, then `puts "\n"`. */
  method EmitPrefixes() returns (lines: seq<string>)
    ensures lines == PrefixBlock()
  {
    lines := [];
    for i := 0 to |Table|
      invariant lines == PrefixBlock()[..i]
    {
      lines := lines + [Directive(Table[i].0, Table[i].1)];
    }
    lines := lines + [""];
  }

  /** `name` has a directive. */
  predicate Declared(name: string) {
    exists i :: 0 <= i < |Table| && Table[i].0 == name
  }

  /** The table is a Hash: no prefix name occurs twice. */
  lemma TableNamesDistinct()
    ensures |Table| == 11
    ensures forall i, j :: 0 <= i < j < |Table| ==> Table[i].0 != Table[j].0
  {
  }

  /** Table entry `i` declares its prefix. */
  lemma DeclaredAt(i: nat)
    requires i < |Table|
    ensures Declared(Table[i].0)
  {
  }

  /** `curie` is a prefixed name in the namespace `name`. */
  predicate InNamespace(curie: string, name: string) {
    StartsWith(curie, name + ":")
  }

  /** A literal annotation `^^datatype`, as opposed to a language tag. */
  predicate Typed(annotation: string) {
    |annotation| > 2 && annotation[0] == '^' && annotation[1] == '^'
  }

  /** `curie` is a prefixed name whose prefix has a directive. */
  predicate DeclaredCurie(curie: string) {
    exists i :: 0 <= i < |Table| && InNamespace(curie, Table[i].0)
  }

  /** A name in the namespace of table entry `i` is declared. */
  lemma CurieAt(curie: string, i: nat)
    requires i < |Table| && InNamespace(curie, Table[i].0)
    ensures DeclaredCurie(curie)
  {
  }

  /** The prefixed names a template entry writes: its predicate, a name
      pasted after a prefix, and a literal's datatype. */
  predicate EntryDeclared(t: Triple) {
    && Declared(t.prefix)
    && (t.obj.Name? && t.obj.prefix != "" ==> DeclaredCurie(t.obj.prefix))
    && (t.obj.Literal? && Typed(t.obj.annotation) ==> DeclaredCurie(t.obj.annotation[2..]))
  }

  /** Every prefix a study block uses has a directive: `study:` and `gwas:`
      of the subject line, and every prefixed name of every template entry. */
  lemma BlockPrefixesDeclared()
    ensures Declared("study") && Declared("gwas")
    ensures forall i :: 0 <= i < |Template| ==> EntryDeclared(Template[i])
  {
    DeclaredAt(8);
    DeclaredAt(2);
    VerbNamespaces();
    NameNamespaces();
    DatatypeNamespaces();
    forall i | 0 <= i < |Template| ensures EntryDeclared(Template[i]) {
      var t := Template[i];
      if t.prefix == "dct" {
        DeclaredAt(9);
      } else if t.prefix == "terms" {
        DeclaredAt(1);
      }
      if t.obj.Name? && t.obj.prefix != "" {
        CurieAt(t.obj.prefix, 10);
      }
      if t.obj.Literal? && Typed(t.obj.annotation) {
        CurieAt(t.obj.annotation[2..], 5);
      }
    }
  }

  /** The namespaces of the template's predicates. */
  lemma VerbNamespaces()
    ensures forall i :: 0 <= i < |Template| ==>
      Template[i].prefix == "dct" || Template[i].prefix == "gwas" || Template[i].prefix == "terms"
  {
  }

  /** The one name pasted after a prefix is a PubMed IRI. */
  lemma NameNamespaces()
    ensures forall i :: 0 <= i < |Template| && Template[i].obj.Name? && Template[i].obj.prefix != "" ==>
      InNamespace(Template[i].obj.prefix, "pubmed")
  {
  }

  /** The datatypes of the typed literals are XML Schema types. */
  lemma DatatypeNamespaces()
    ensures forall i :: 0 <= i < |Template| && Template[i].obj.Literal? && Typed(Template[i].obj.annotation) ==>
      InNamespace(Template[i].obj.annotation[2..], "xsd")
  {
    forall i | 0 <= i < |Template| && Template[i].obj.Literal? && Typed(Template[i].obj.annotation)
      ensures InNamespace(Template[i].obj.annotation[2..], "xsd")
    {
      var a := Template[i].obj.annotation;
      assert a == "^^xsd:date" || a == "^^xsd:string";
      assert a[2..][..4] == a[2..6];
    }
  }

  /** A name outside the table, such as `foaf`, is not declared. */
  lemma UndeclaredName()
    ensures !Declared("foaf")
  {
  }
}
