/** `GWASCatalog::Study.turtle`: one study record rendered as a block of
    Turtle text by a fixed twelve-predicate template. */
module StudyTurtle {
  import opened RubyString
  import opened RubyErrors
  import opened StudyRecord

  /** The key whose value is rendered as a list of IRIs. */
  const MappedTraitUri := "mapped_trait_uri"

  /** `#{h[:key]}`: an absent key reads as nil, which interpolates as empty text. */
  function Lookup(h: Record, key: string): (v: string)
    ensures key in h ==> v == h[key]
    ensures key !in h ==> v == ""
  {
    if key in h then h[key] else ""
  }

  /** `"<#{e}>"` */
  function Wrap(part: string): string {
    "<" + part + ">"
  }

  /** `.map { |e| "<#{e}>" }` */
  function WrapAll(parts: seq<string>): (r: seq<string>)
    ensures |r| == |parts|
    ensures forall i :: 0 <= i < |parts| ==> r[i] == Wrap(parts[i])
  {
    if parts == [] then [] else [Wrap(parts[0])] + WrapAll(parts[1..])
  }

  /** Strips the first and last character: the inverse of `Wrap`. */
  function Unwrap(term: string): string {
    if |term| >= 2 then term[1..|term| - 1] else term
  }

  function UnwrapAll(terms: seq<string>): (r: seq<string>)
    ensures |r| == |terms|
    ensures forall i :: 0 <= i < |terms| ==> r[i] == Unwrap(terms[i])
  {
    if terms == [] then [] else [Unwrap(terms[0])] + UnwrapAll(terms[1..])
  }

  /** The object of `terms:mapped_trait`: `""` for an empty value, otherwise
      the value split on ", " with each part wrapped in angle brackets and
      the parts joined again with ", ". */
  function MappedTraitTerm(uris: string): (term: string)
    ensures term == "\"\"" <==> uris == ""
    ensures uris != "" ==> (term == "" <==> Split(uris, ", ") == [])
    ensures uris != "" && term != "" ==> term[0] == '<'
  {
    if |uris| == 0 then "\"\""
    else
      var terms := WrapAll(Split(uris, ", "));
      if terms == [] then ""
      else Join(terms, ", ")
  }

  /** A wrapped part that holds no ", " holds none after wrapping either,
      not even across its closing bracket and the following separator. */
  lemma WrappedSeparable(part: string)
    requires FreeOf(part, ", ")
    ensures NoMatchBefore(Wrap(part) + ", ", ", ", |Wrap(part)|)
  {
    var x := Wrap(part) + ", ";
    forall i | 0 <= i < |Wrap(part)| ensures !MatchAt(x, ", ", i) {
      MatchAtPair(x, ", ", i);
      if 1 <= i < |part| {
        MatchAtPair(part, ", ", i - 1);
        assert x[i] == part[i - 1] && x[i + 1] == part[i];
        assert !MatchAt(part, ", ", i - 1);
      }
    }
  }

  /** Splitting the rendered list on ", " gives one bracketed term per part
      of any non-empty value. Stripping the brackets and joining recovers
      the value, provided it does not end with ", " (whose empty last part
      `split` drops, so that `"a, "` renders as `<a>`). */
  lemma MappedTraitRoundTrip(uris: string)
    requires uris != ""
    ensures Split(MappedTraitTerm(uris), ", ") == WrapAll(Split(uris, ", "))
    ensures |Split(MappedTraitTerm(uris), ", ")| == |Split(uris, ", ")|
    ensures !EndsWith(uris, ", ") ==>
              |Split(uris, ", ")| >= 1 && Join(UnwrapAll(Split(MappedTraitTerm(uris), ", ")), ", ") == uris
    ensures Join(Split(MappedTraitTerm(uris), ", "), ", ") == MappedTraitTerm(uris)
  {
    var parts := Split(uris, ", ");
    if parts == [] {
      assert Fields("", ", ") == [""];
    } else {
      SplitFreeOfSeparator(uris, ", ");
      SplitJoinWrapped(parts);
    }
    if !EndsWith(uris, ", ") {
      SplitJoin(uris, ", ");
      UnwrapWrapAll(parts);
    }
  }

  /** Parts free of ", " come back, wrapped, from splitting their wrapped join. */
  lemma SplitJoinWrapped(parts: seq<string>)
    requires |parts| >= 1
    requires forall k :: 0 <= k < |parts| ==> FreeOf(parts[k], ", ")
    ensures Split(Join(WrapAll(parts), ", "), ", ") == WrapAll(parts)
  {
    var terms := WrapAll(parts);
    forall k | 0 <= k < |terms| ensures NoMatchBefore(terms[k] + ", ", ", ", |terms[k]|) {
      WrappedSeparable(parts[k]);
    }
    FieldsOfJoin(terms, ", ");
    assert terms[|terms| - 1] != "";
  }

  /** Stripping the brackets from every wrapped part gives the parts back. */
  lemma UnwrapWrapAll(parts: seq<string>)
    ensures UnwrapAll(WrapAll(parts)) == parts
  {
    var terms := WrapAll(parts);
    forall k | 0 <= k < |parts| ensures UnwrapAll(terms)[k] == parts[k] {
      assert Wrap(parts[k])[1..|Wrap(parts[k])| - 1] == parts[k];
    }
  }

  /** An empty value renders as the empty literal `""`. */
  lemma MappedTraitTermEmpty()
    ensures MappedTraitTerm("") == "\"\""
  {
  }

  /** A value that is only a separator splits into no parts at all, so it
      renders as nothing, not even the empty literal. */
  lemma MappedTraitTermSeparatorOnly()
    ensures MappedTraitTerm(", ") == ""
  {
    assert Fields(", ", ", ") == ["", ""] by {
      assert MatchAt(", ", ", ", 0);
      assert Fields("", ", ") == [""];
    }
    assert Split(", ", ", ") == [];
  }

  /** `"a, b"` splits into its two parts. */
  lemma SplitTwoParts()
    ensures Split("a, b", ", ") == ["a", "b"]
  {
    var parts := ["a", "b"];
    assert Join(parts, ", ") == "a, b" by {
      assert Join(parts[1..], ", ") == "b";
    }
    SplitJoin("a, b", ", ");
    forall k | 0 <= k < 2 ensures NoMatchBefore(parts[k] + ", ", ", ", |parts[k]|) {
      MatchAtPair(parts[k] + ", ", ", ", 0);
    }
    FieldsOfJoin(parts, ", ");
  }

  /** Each part of a two-part value is bracketed and the parts are rejoined. */
  lemma MappedTraitTermTwoParts()
    ensures MappedTraitTerm("a, b") == "<a>, <b>"
  {
    SplitTwoParts();
    var terms := WrapAll(["a", "b"]);
    assert terms[0] == Wrap("a") == "<a>" && terms[1] == Wrap("b") == "<b>";
    assert terms == ["<a>", "<b>"];
    assert Join(terms, ", ") == "<a>, <b>" by {
      assert Join(terms[1..], ", ") == "<b>";
    }
  }

  /** `"#{value}"` followed by a datatype or language annotation. */
  function Quoted(value: string, annotation: string): string {
    "\"" + value + "\"" + annotation
  }

  /** A predicate line of the heredoc: two spaces left by `<<~`, the
      predicate, its object, and ` ;` (` .` on the block's last triple). */
  function PredicateLine(prefix: string, local: string, obj: string, last: bool): string {
    "  " + prefix + ":" + local + " " + obj + (if last then " ." else " ;")
  }

  /** `Study.turtle`: the lines of the heredoc, after `<<~` has removed the
      common eight-column indentation. Only `h[:mapped_trait_uri].size` can
      fail: on a record without that key it calls `size` on nil. */
  function Turtle(h: Record): (r: Result<seq<string>>)
    ensures r.Ok? <==> MappedTraitUri in h
    ensures r.Err? ==> r.error == NoMethodError("size")
    ensures r.Ok? ==> |r.value| == 13 && r.value[12] == ""
  {
    if MappedTraitUri !in h then Err(NoMethodError("size"))
    else
      var accession := Lookup(h, "study_accession");
      var pubmed := Lookup(h, "pubmedid");
      Ok([
        "study:" + accession + " a gwas:Study ;",
        PredicateLine("dct", "identifier", Quoted(accession, ""), false),
        PredicateLine("dct", "date", Quoted(Lookup(h, "date_added_to_catalog"), "^^xsd:date"), false),
        PredicateLine("dct", "references", "pubmed:" + pubmed, false),
        PredicateLine("gwas", "has_pubmed_id", Quoted(pubmed, "^^xsd:string"), false),
        PredicateLine("dct", "description", Quoted(Lookup(h, "disease_trait"), "@en"), false),
        PredicateLine("terms", "initial_sample_size", Quoted(Lookup(h, "initial_sample_size"), "@en"), false),
        PredicateLine("terms", "replication_sample_size", Quoted(Lookup(h, "replication_sample_size"), "@en"), false),
        PredicateLine("terms", "platform_snps_passing_qc", Quoted(Lookup(h, "platform_snps_passing_qc"), ""), false),
        PredicateLine("terms", "association_count", Lookup(h, "association_count"), false),
        PredicateLine("terms", "mapped_trait", MappedTraitTerm(h[MappedTraitUri]), false),
        PredicateLine("terms", "genotyping_technology", Quoted(Lookup(h, "genotyping_technology"), ""), true),
        ""
      ])
  }

  /** How the object of a triple is written. */
  datatype Object =
    /** `"value"` followed by a datatype or language annotation (possibly none) */
    | Literal(key: string, annotation: string)
    /** the value pasted unquoted after a namespace prefix (possibly none) */
    | Name(prefix: string, key: string)
    /** the bracketed IRI list of `MappedTraitTerm` */
    | IriList(key: string)

  datatype Triple = Triple(prefix: string, local: string, obj: Object)

  /** The predicates of the block after its subject line, in order, with the
      way each object is written. */
  const Template: seq<Triple> := [
    Triple("dct", "identifier", Literal("study_accession", "")),
    Triple("dct", "date", Literal("date_added_to_catalog", "^^xsd:date")),
    Triple("dct", "references", Name("pubmed:", "pubmedid")),
    Triple("gwas", "has_pubmed_id", Literal("pubmedid", "^^xsd:string")),
    Triple("dct", "description", Literal("disease_trait", "@en")),
    Triple("terms", "initial_sample_size", Literal("initial_sample_size", "@en")),
    Triple("terms", "replication_sample_size", Literal("replication_sample_size", "@en")),
    Triple("terms", "platform_snps_passing_qc", Literal("platform_snps_passing_qc", "")),
    Triple("terms", "association_count", Name("", "association_count")),
    Triple("terms", "mapped_trait", IriList(MappedTraitUri)),
    Triple("terms", "genotyping_technology", Literal("genotyping_technology", ""))
  ]

  function ObjectText(h: Record, o: Object): string
    requires o.IriList? ==> o.key in h
  {
    match o
    case Literal(key, annotation) => Quoted(Lookup(h, key), annotation)
    case Name(prefix, key) => prefix + Lookup(h, key)
    case IriList(key) => MappedTraitTerm(h[key])
  }

  /** Line `i + 1` of the block as the template describes it: two spaces of
      indentation, the predicate, the object, and ` ;` (` .` on the last). */
  function TemplateLine(h: Record, i: nat): string
    requires i < |Template| && MappedTraitUri in h
  {
    PredicateLine(Template[i].prefix, Template[i].local, ObjectText(h, Template[i].obj), i == |Template| - 1)
  }

  /** The rendered block is the subject line, one line per template entry
      in template order, and a blank line; every value is pasted in
      verbatim (no escaping) and an absent key gives empty text. */
  lemma TurtleFollowsTemplate(h: Record)
    requires MappedTraitUri in h
    ensures Turtle(h).Ok?
    ensures Turtle(h).value[0] == "study:" + Lookup(h, "study_accession") + " a gwas:Study ;"
    ensures forall i :: 0 <= i < |Template| ==> Turtle(h).value[i + 1] == TemplateLine(h, i)
    ensures Turtle(h).value[|Template| + 1] == ""
  {
    forall i | 0 <= i < |Template| ensures Turtle(h).value[i + 1] == TemplateLine(h, i) {
      if i == 0 {
        IdentifierLine(h, i);
      } else if i == 1 {
        DateLine(h, i);
      } else if i == 2 {
        ReferenceLine(h, i);
      } else if i == 3 {
        PubmedIdLine(h, i);
      } else if i == 4 {
        DescriptionLine(h, i);
      } else if i == 5 {
        InitialSampleLine(h, i);
      } else if i == 6 {
        ReplicationSampleLine(h, i);
      } else if i == 7 {
        PlatformLine(h, i);
      } else if i == 8 {
        AssociationCountLine(h, i);
      } else if i == 9 {
        MappedTraitLine(h, i);
      } else {
        GenotypingLine(h, i);
      }
    }
  }

  // One lemma per template entry: line `i + 1` of the block. Each takes the
  // index as a parameter pinned by `requires i == k` rather than using the
  // literal `k`, so that its ensures matches the quantified goal of
  // `TurtleFollowsTemplate` word for word; indexing the literal template at
  // a symbolic position instead makes that proof far more costly to verify.

  lemma IdentifierLine(h: Record, i: nat)
    requires MappedTraitUri in h && i == 0
    ensures Turtle(h).value[i + 1] == TemplateLine(h, i)
  {
    assert Template[0] == Triple("dct", "identifier", Literal("study_accession", ""));
  }

  lemma DateLine(h: Record, i: nat)
    requires MappedTraitUri in h && i == 1
    ensures Turtle(h).value[i + 1] == TemplateLine(h, i)
  {
    assert Template[1] == Triple("dct", "date", Literal("date_added_to_catalog", "^^xsd:date"));
  }

  lemma ReferenceLine(h: Record, i: nat)
    requires MappedTraitUri in h && i == 2
    ensures Turtle(h).value[i + 1] == TemplateLine(h, i)
  {
    assert Template[2] == Triple("dct", "references", Name("pubmed:", "pubmedid"));
  }

  lemma PubmedIdLine(h: Record, i: nat)
    requires MappedTraitUri in h && i == 3
    ensures Turtle(h).value[i + 1] == TemplateLine(h, i)
  {
    assert Template[3] == Triple("gwas", "has_pubmed_id", Literal("pubmedid", "^^xsd:string"));
  }

  lemma DescriptionLine(h: Record, i: nat)
    requires MappedTraitUri in h && i == 4
    ensures Turtle(h).value[i + 1] == TemplateLine(h, i)
  {
    assert Template[4] == Triple("dct", "description", Literal("disease_trait", "@en"));
  }

  lemma InitialSampleLine(h: Record, i: nat)
    requires MappedTraitUri in h && i == 5
    ensures Turtle(h).value[i + 1] == TemplateLine(h, i)
  {
    assert Template[5] == Triple("terms", "initial_sample_size", Literal("initial_sample_size", "@en"));
  }

  lemma ReplicationSampleLine(h: Record, i: nat)
    requires MappedTraitUri in h && i == 6
    ensures Turtle(h).value[i + 1] == TemplateLine(h, i)
  {
    assert Template[6] == Triple("terms", "replication_sample_size", Literal("replication_sample_size", "@en"));
  }

  lemma PlatformLine(h: Record, i: nat)
    requires MappedTraitUri in h && i == 7
    ensures Turtle(h).value[i + 1] == TemplateLine(h, i)
  {
    assert Template[7] == Triple("terms", "platform_snps_passing_qc", Literal("platform_snps_passing_qc", ""));
  }

  lemma AssociationCountLine(h: Record, i: nat)
    requires MappedTraitUri in h && i == 8
    ensures Turtle(h).value[i + 1] == TemplateLine(h, i)
  {
    assert Template[8] == Triple("terms", "association_count", Name("", "association_count"));
    assert "" + Lookup(h, "association_count") == Lookup(h, "association_count");
  }

  lemma MappedTraitLine(h: Record, i: nat)
    requires MappedTraitUri in h && i == 9
    ensures Turtle(h).value[i + 1] == TemplateLine(h, i)
  {
    assert Template[9] == Triple("terms", "mapped_trait", IriList(MappedTraitUri));
  }

  lemma GenotypingLine(h: Record, i: nat)
    requires MappedTraitUri in h && i == 10
    ensures Turtle(h).value[i + 1] == TemplateLine(h, i)
  {
    assert Template[10] == Triple("terms", "genotyping_technology", Literal("genotyping_technology", ""));
  }

  /** A double quote inside a value is pasted in unescaped: a trait written
      `a"b` yields a description literal with three quotes. */
  lemma QuoteNotEscaped(h: Record)
    requires MappedTraitUri in h && "disease_trait" in h && h["disease_trait"] == "a\"b"
    ensures Turtle(h).value[5] == "  dct:description \"a\"b\"@en ;"
  {
    assert Lookup(h, "disease_trait") == "a\"b";
    QuotedDescriptionText();
  }

  /** The description line for the value `a"b`, spelled out. */
  lemma QuotedDescriptionText()
    ensures PredicateLine("dct", "description", Quoted("a\"b", "@en"), false) == "  dct:description \"a\"b\"@en ;"
  {
  }


}
