# GWAS Catalog study converter, modelled in Dafny

`rdf_converter_gwascatalog.rb` turns the GWAS Catalog "studies" file (tab-separated
text, one header line, then one line per study) into Turtle. This project models the
study path of that script:

- `Study.parse_header`: the header line becomes one record key per column. It is chomped,
  split on TAB, and each title is lower-cased. Hyphens, whitespace and slashes become `_`
  and square brackets are deleted.
- The per-line record: `line.chomp.split("\t")` is paired with the keys by
  `[keys, ary].transpose.to_h`. On a length mismatch this raises IndexError, and a
  repeated key keeps its last value.
- `Study.turtle`: the fixed twelve-predicate heredoc. `mapped_trait_uri` is rendered as a
  list of `<IRI>`s, or as `""` when the value is empty.
- `GWASCatalog::Prefixes` and `GWASCatalog.prefixes`: the `@prefix` directives.
- `Study.rdf`: the loop that reads the header, prints the directives when requested, and
  then prints one block per data line until the lines run out or a line raises.

Modules, in dependency order:

| module | file | contents |
|---|---|---|
| `RubyErrors` | `ruby_errors.dfy` | the two exceptions the path can raise; `Option`, `Result` |
| `RubyString` | `ruby_string.dfy` | `chomp`, `split` with a literal separator, `join`, and their round trips |
| `StudyHeader` | `study_header.dfy` | `parse_header` and the key normalisation |
| `StudyRecord` | `study_record.dfy` | `transpose.to_h` of keys and fields |
| `StudyTurtle` | `study_turtle.dfy` | `turtle`, its template, and the `mapped_trait` list |
| `Prefixes` | `prefixes.dfy` | the prefix table and the directive printer |
| `StudyRdf` | `study_rdf.dfy` | the conversion loop over the lines of a file |

How Ruby's behaviour is represented:

- A file is the sequence of lines `f.gets` returns, each line with its terminator.
- What the script prints is a sequence of output lines, each line without its final line
  feed.
- An exception is a `failure` value carried next to the lines printed before it.
- The global `$prefixes` is the `emitPrefixes` parameter.
- Record keys are Ruby symbols. They are modelled as strings, and `h[:name]` is a lookup
  of `"name"`.
- A value that is absent (`nil`) interpolates as empty text.

Consequences of the code that the model makes explicit:

- Data lines are not padded to the header length. `split("\t")` drops trailing empty
  fields, and `transpose` then raises IndexError whenever the field count differs from
  the key count. This applies even to a full-length line whose last field is empty; see
  `StudyRecord.TrailingEmptyFieldRejected`.
- A header without a `mapped_trait_uri` column does not yield a block with an empty list.
  The first data line raises: NoMethodError on `nil.size` when it has one field per key
  (`StudyRdf.MissingMappedTraitColumn`), IndexError otherwise
  (`StudyRdf.FirstLineWrongCount`). Either way only the directives have been printed and
  no later line is reached.
- Key normalisation deletes only `[` and `]`; every other character is kept, lower-cased or
  turned into `_`. Field values are pasted into the Turtle text unchanged: nothing on this
  path sanitises or escapes them, and `Association` is an empty class.

## Model

| member | source | states |
|---|---|---|
| RubyString.Chomp | rdf_converter_gwascatalog.rb:37 | `chomp` keeps a prefix of its input and removes at most two characters. |
| RubyString.ChompRemovesOneTerminator | rdf_converter_gwascatalog.rb:45 | `chomp` returns a prefix of its input. The part removed is exactly one of "", "\n", "\r", "\r\n". Nothing is removed only when the text does not end in a line terminator. A removed "\n" is never the second half of a "\r\n". |
| RubyString.ChompLine | rdf_converter_gwascatalog.rb:36-37 | A line read by `gets` gets back exactly its text minus its terminator: a "\r\n", a "\n" after text not ending in "\r", or, on a last line with no line feed, a lone "\r" or nothing. |
| RubyString.Fields | rdf_converter_gwascatalog.rb:46 | The scan between separators always yields at least one field. |
| RubyString.DropTrailingEmpty | rdf_converter_gwascatalog.rb:46 | Returns a prefix of the fields that ends in a non-empty field (or is empty). Everything it dropped is empty. |
| RubyString.Split | rdf_converter_gwascatalog.rb:46 | `split(sep)` for a literal separator never leaves an empty last field. |
| RubyString.SplitFreeOfSeparator | rdf_converter_gwascatalog.rb:46 | No field returned by `split(sep)` contains the separator. |
| RubyString.Join | rdf_converter_gwascatalog.rb:64 | `join(sep)` of a non-empty list starts with its first part. |
| RubyString.JoinEndsWithSeparatorAndLast | rdf_converter_gwascatalog.rb:64 | A join of two or more parts ends with the separator followed by the last part. |
| RubyString.JoinFields | rdf_converter_gwascatalog.rb:64 | Joining the scanned fields with the separator gives the input back. |
| RubyString.FieldsOfJoin | rdf_converter_gwascatalog.rb:64 | Scanning the join of parts that hold no separator gives those parts back. |
| RubyString.SplitJoin | rdf_converter_gwascatalog.rb:64 | For text that is non-empty and does not end with the separator, `split` keeps every field (even empty ones) and joining them restores the text. |
| RubyString.SplitKeepsAllFields | rdf_converter_gwascatalog.rb:64 | When the text is non-empty and does not end with the separator, `split` drops no field. |
| RubyString.SplitTabJoin | rdf_converter_gwascatalog.rb:37 | Splitting tab-joined, tab-free fields on TAB gives them back, minus their trailing empty fields. |
| StudyHeader.Lower | rdf_converter_gwascatalog.rb:47 | Lower-casing leaves no capital letter. |
| StudyHeader.Downcase | rdf_converter_gwascatalog.rb:47 | `downcase` keeps the length of the title. |
| StudyHeader.DowncaseAt | rdf_converter_gwascatalog.rb:47 | `downcase` lower-cases each character in place. |
| StudyHeader.Underscore | rdf_converter_gwascatalog.rb:47 | The substitution `gsub(/[\-\s\/]/, '_')` keeps the length of the title. |
| StudyHeader.UnderscoreAt | rdf_converter_gwascatalog.rb:47 | That substitution replaces each hyphen, whitespace character and slash by `_` in place and keeps every other character. |
| StudyHeader.DeleteBrackets | rdf_converter_gwascatalog.rb:48 | The bracket deletion never lengthens the title. |
| StudyHeader.DeleteBracketsConcat | rdf_converter_gwascatalog.rb:48 | Deleting brackets from a joined title is the same as deleting them from each piece and joining the results. |
| StudyHeader.DeleteBracketsKeeps | rdf_converter_gwascatalog.rb:48 | A character occurs in the result exactly when it occurs in the title and is not a square bracket. |
| StudyHeader.NormalizeChar | rdf_converter_gwascatalog.rb:47-48 | One title character becomes at most one key character, and that character is clean (no capital, separator or bracket). |
| StudyHeader.NormalizeKey | rdf_converter_gwascatalog.rb:47-48 | The `downcase` / `gsub` / `gsub` chain yields a clean key no longer than the title. |
| StudyHeader.NormalizeKeyPerCharacter | rdf_converter_gwascatalog.rb:47-48 | The three whole-string passes equal an independent character-by-character definition. |
| StudyHeader.PerCharIsClean | rdf_converter_gwascatalog.rb:47-48 | The character-by-character key is clean and no longer than the title. |
| StudyHeader.CleanKeyUnchanged | rdf_converter_gwascatalog.rb:47-48 | A title that is already clean is its own key. |
| StudyHeader.NormalizeKeyIdempotent | rdf_converter_gwascatalog.rb:47-48 | Normalising a key again changes nothing. |
| StudyHeader.NormalizeKeyConcat | rdf_converter_gwascatalog.rb:47-48 | Normalisation distributes over concatenation. |
| StudyHeader.PerCharConcat | rdf_converter_gwascatalog.rb:47-48 | The character-by-character key distributes over concatenation. |
| StudyHeader.NormalizeKeyOneChar | rdf_converter_gwascatalog.rb:47-48 | A bracket vanishes. A hyphen, slash or whitespace character becomes `_`. Any other character is lower-cased. |
| StudyHeader.NormalizeKeyBracketExample | rdf_converter_gwascatalog.rb:47-48 | `"P [x]"` becomes `"p_x"`: brackets are deleted after the underscore substitution. |
| StudyHeader.TitleHead | rdf_converter_gwascatalog.rb:47-48 | `"P "` becomes `"p_"`. |
| StudyHeader.BracketedTail | rdf_converter_gwascatalog.rb:47-48 | `"[x]"` becomes `"x"`. |
| StudyHeader.NormalizeKeySpaceRunExample | rdf_converter_gwascatalog.rb:47 | Two spaces become two underscores, not one. |
| StudyHeader.NormalizeAll | rdf_converter_gwascatalog.rb:47-49 | `map` gives one key per title. |
| StudyHeader.ParseHeader | rdf_converter_gwascatalog.rb:44-50 | Every key of a header is clean. |
| StudyHeader.ParseHeaderColumns | rdf_converter_gwascatalog.rb:44-50 | A header written as tab-separated titles plus "\n", "\r\n", a final lone "\r" or no terminator gives the normalised titles in column order. Its trailing empty titles are dropped. |
| StudyRecord.Zip | rdf_converter_gwascatalog.rb:38 | `transpose.to_h` has exactly the keys as its domain. Each key is bound to the value of the last column carrying it. |
| StudyRecord.RowFields | rdf_converter_gwascatalog.rb:37 | `line.chomp.split("\t")` gives fields that hold no TAB, the last of them never empty. |
| StudyRecord.ToRecord | rdf_converter_gwascatalog.rb:37-38 | A line becomes a record exactly when its field count equals the key count. Otherwise it raises IndexError(field count, key count). On success, domain and values are as for `Zip` over the line's fields. |
| StudyRecord.ToRecordOfFields | rdf_converter_gwascatalog.rb:37-38 | A line written from tab-free fields, ended by "\n", "\r\n", a final lone "\r" or nothing, is accepted exactly when its fields, minus trailing empty ones, number as many as the keys. Then each last-occurring key maps to its own field. |
| StudyRecord.TrailingEmptyFieldRejected | rdf_converter_gwascatalog.rb:37-38 | A full-length line whose last field is empty raises instead of being padded, whichever line ending it has. |
| StudyRecord.DuplicateKeyLastWins | rdf_converter_gwascatalog.rb:38 | With keys `a, a` and the line `"x\ty\n"`, the record is `{a => y}`. |
| StudyTurtle.Lookup | rdf_converter_gwascatalog.rb:54-65 | `#{h[:key]}` gives the key's value, or empty text when the key is absent (nil interpolates as ""). |
| StudyTurtle.MappedTraitTerm | rdf_converter_gwascatalog.rb:64 | The object is `""` exactly when the value is empty. For a non-empty value it is empty text exactly when `split(", ")` yields no parts (a value made only of separators), and otherwise starts with `<`. `MappedTraitRoundTrip` pins the rest of the text. |
| StudyTurtle.WrappedSeparable | rdf_converter_gwascatalog.rb:64 | Bracketing a part that holds no ", " creates no new ", ". |
| StudyTurtle.MappedTraitRoundTrip | rdf_converter_gwascatalog.rb:64 | For every non-empty value, splitting the rendered list on ", " gives one bracketed term per part of the value. When the value does not end in ", ", it has at least one part, and removing the brackets and joining gives the value back. Rejoining the split terms with ", " gives the rendered text itself, so the text is exactly the bracketed parts joined by ", ". |
| StudyTurtle.SplitJoinWrapped | rdf_converter_gwascatalog.rb:64 | Splitting the ", "-join of bracketed, separator-free parts gives back the bracketed parts. |
| StudyTurtle.UnwrapWrapAll | rdf_converter_gwascatalog.rb:64 | Removing the brackets from every bracketed part gives back the parts. |
| StudyTurtle.WrapAll | rdf_converter_gwascatalog.rb:64 | `map { "<#{x}>" }` brackets each part at the same position. |
| StudyTurtle.UnwrapAll | rdf_converter_gwascatalog.rb:64 | Strips the brackets from each term at the same position; `UnwrapWrapAll` proves it inverts `WrapAll`. |
| StudyTurtle.MappedTraitTermEmpty | rdf_converter_gwascatalog.rb:64 | An empty value renders as the empty literal `""`. |
| StudyTurtle.MappedTraitTermSeparatorOnly | rdf_converter_gwascatalog.rb:64 | The value ", " splits into no parts and renders as empty text. |
| StudyTurtle.SplitTwoParts | rdf_converter_gwascatalog.rb:64 | "a, b" splits on ", " into "a" and "b". |
| StudyTurtle.MappedTraitTermTwoParts | rdf_converter_gwascatalog.rb:64 | "a, b" renders as `<a>, <b>`. |
| StudyTurtle.Turtle | rdf_converter_gwascatalog.rb:52-68 | The block succeeds exactly when the record has `mapped_trait_uri`. Otherwise it raises NoMethodError on `size`. A block is 13 lines, the last one blank. |
| StudyTurtle.TurtleFollowsTemplate | rdf_converter_gwascatalog.rb:53-67 | The block is the subject line, then one line per predicate of the template in order, then a blank line. Absent values are empty, and values are pasted in without escaping. |
| StudyTurtle.IdentifierLine | rdf_converter_gwascatalog.rb:55 | Line 2 of a block is `dct:identifier` with the study accession as a literal. |
| StudyTurtle.DateLine | rdf_converter_gwascatalog.rb:56 | Line 3 is `dct:date` with the date typed `xsd:date`. |
| StudyTurtle.ReferenceLine | rdf_converter_gwascatalog.rb:57 | Line 4 is `dct:references` with the `pubmed:` IRI of the PubMed id. |
| StudyTurtle.PubmedIdLine | rdf_converter_gwascatalog.rb:58 | Line 5 is `gwas:has_pubmed_id` with the PubMed id typed `xsd:string`. |
| StudyTurtle.DescriptionLine | rdf_converter_gwascatalog.rb:59 | Line 6 is `dct:description` with the disease trait as an `@en` literal. |
| StudyTurtle.InitialSampleLine | rdf_converter_gwascatalog.rb:60 | Line 7 is the initial sample size as an `@en` literal. |
| StudyTurtle.ReplicationSampleLine | rdf_converter_gwascatalog.rb:61 | Line 8 is the replication sample size as an `@en` literal. |
| StudyTurtle.PlatformLine | rdf_converter_gwascatalog.rb:62 | Line 9 is the platform and SNP count as a plain literal. |
| StudyTurtle.AssociationCountLine | rdf_converter_gwascatalog.rb:63 | Line 10 is the association count, written bare. |
| StudyTurtle.MappedTraitLine | rdf_converter_gwascatalog.rb:64 | Line 11 is `terms:mapped_trait` with the rendered IRI list. |
| StudyTurtle.GenotypingLine | rdf_converter_gwascatalog.rb:65 | Line 12 is the genotyping technology as a plain literal, ending the statement with `.`. |
| StudyTurtle.QuoteNotEscaped | rdf_converter_gwascatalog.rb:59 | For any record whose disease trait is `a"b`, the description line carries the `"` unescaped, which closes the literal early. |
| Prefixes.PrefixBlock | rdf_converter_gwascatalog.rb:22-27 | Line i is the directive for table entry i (so it starts with `@prefix name: `), in table order, and one blank line follows the last. |
| Prefixes.Directive | rdf_converter_gwascatalog.rb:24 | A directive starts with `@prefix name: `, ends with the IRI followed by ` .`, and has nothing in between. Its length is that of the head plus the IRI plus two. |
| Prefixes.TableNamesDistinct | rdf_converter_gwascatalog.rb:8-20 | The table has eleven entries and no prefix name occurs twice. |
| Prefixes.EmitPrefixes | rdf_converter_gwascatalog.rb:22-27 | The printing loop produces exactly the prefix block. |
| Prefixes.BlockPrefixesDeclared | rdf_converter_gwascatalog.rb:8-20 | Every prefix a study block uses has a directive: `study` and `gwas` of the subject line, and, for every template entry, its predicate's prefix, the prefix of a name pasted after one, and the prefix of a literal's datatype. |
| Prefixes.VerbNamespaces | rdf_converter_gwascatalog.rb:55-65 | Every predicate of the template is in the `dct`, `gwas` or `terms` namespace. |
| Prefixes.NameNamespaces | rdf_converter_gwascatalog.rb:57 | The one name pasted after a prefix is in the `pubmed` namespace. |
| Prefixes.DatatypeNamespaces | rdf_converter_gwascatalog.rb:56-58 | The typed literals' datatypes are in the `xsd` namespace. |
| Prefixes.UndeclaredName | rdf_converter_gwascatalog.rb:8-20 | A name outside the table, such as `foaf`, has no directive. |
| StudyRdf.RowBlock | rdf_converter_gwascatalog.rb:37-39 | A printed row is 13 lines. |
| StudyRdf.RowBlockOutcome | rdf_converter_gwascatalog.rb:37-39 | A data line prints exactly when its field count equals the key count and the keys include `mapped_trait_uri`. Otherwise it raises IndexError or NoMethodError respectively. |
| StudyRdf.Outcomes | rdf_converter_gwascatalog.rb:36-40 | There is one outcome per data line. |
| StudyRdf.OutcomeAt | rdf_converter_gwascatalog.rb:36-40 | The outcome of line `j` is that line's block. |
| StudyRdf.RowOutcomeAt | rdf_converter_gwascatalog.rb:36-40 | The outcome of data line `j` is that line's study block. |
| StudyRdf.OutcomesSnoc | rdf_converter_gwascatalog.rb:36-40 | Reading one more line appends exactly that line's outcome. |
| StudyRdf.OutcomesPrefix | rdf_converter_gwascatalog.rb:36-40 | The outcomes of the first `n` lines are the first `n` outcomes. |
| StudyRdf.Sequence | rdf_converter_gwascatalog.rb:36-40 | An exception that ends the loop is one that some data line raised. |
| StudyRdf.FailureIsFinal | rdf_converter_gwascatalog.rb:36-40 | After a line has raised, later lines change neither the output nor the exception. |
| StudyRdf.SequenceSnoc | rdf_converter_gwascatalog.rb:36-40 | Each iteration appends the next block, records the next exception, or changes nothing once the loop has raised. |
| StudyRdf.SequenceCompletes | rdf_converter_gwascatalog.rb:36-40 | The loop ends without an exception exactly when every line succeeds. |
| StudyRdf.SequenceBlocks | rdf_converter_gwascatalog.rb:36-40 | When every line succeeds, the output is the lines' blocks: 13 lines each, in line order. |
| StudyRdf.StopsAtFirstFailure | rdf_converter_gwascatalog.rb:36-40 | When line `j` is the first to raise, the run reports that line's exception. Its output is that of the lines before `j`: exactly their `13 * j` lines, block `m` at lines `13 * m` to `13 * m + 12`. |
| StudyRdf.FirstFailureRun | rdf_converter_gwascatalog.rb:36-40 | The loop's run is what the earlier lines printed, followed by the exception of the first line that raises. |
| StudyRdf.PrintRows | rdf_converter_gwascatalog.rb:36-40 | For any per-line renderer, the `while line = f.gets` loop prints and raises exactly as the outcome sequence specifies. |
| StudyRdf.AfterHeader | rdf_converter_gwascatalog.rb:33-41 | Once the header has given the keys, the output starts with the directives, if requested. |
| StudyRdf.Convert | rdf_converter_gwascatalog.rb:32-42 | An empty file prints nothing and raises. A non-empty file's output starts with the directives, if requested. |
| StudyRdf.Rdf | rdf_converter_gwascatalog.rb:32-42 | The whole method matches `Convert`. An empty file raises on `chomp` before the directives. Otherwise the header gives the keys, the directives are printed if requested, and then the loop runs. |
| StudyRdf.RowsMismatchAborts | rdf_converter_gwascatalog.rb:37-38 | A data line with the wrong field count makes the loop raise. |
| StudyRdf.FieldCountMismatchAborts | rdf_converter_gwascatalog.rb:32-42 | Once the header has given the keys, a data line with the wrong field count makes the whole run, directives included, end in an exception. |
| StudyRdf.RowsComplete | rdf_converter_gwascatalog.rb:36-40 | With a `mapped_trait_uri` key and every line of the right field count, the loop ends without an exception, having printed 13 lines per data line. |
| StudyRdf.BlockAfterPreamble | rdf_converter_gwascatalog.rb:32-42 | When every line succeeds, data line `j`'s block follows the directives and the blocks of the lines before it. |
| StudyRdf.ConvertCompletes | rdf_converter_gwascatalog.rb:32-42 | When the header has `mapped_trait_uri` and every data line has its field count, the run completes. Its output starts with the directives, if requested, and has 13 lines per data line after them. |
| StudyRdf.FirstLineWrongCount | rdf_converter_gwascatalog.rb:32-42 | A first data line whose field count differs from the key count makes the run end with IndexError(got, expected) from `transpose`, after the directives only. No later line is reached. |
| StudyRdf.MissingMappedTraitColumn | rdf_converter_gwascatalog.rb:34-39 | Without a `mapped_trait_uri` column, a first data line with one field per key raises NoMethodError on `size`: the run stops there with only the directives printed, and no later line is reached. |
| StudyRdf.FirstLineRaises | rdf_converter_gwascatalog.rb:36-40 | When the first line raises, nothing is printed and that exception ends the loop. |

## Left out

- The command line is not modelled: `help`, `getopts`, and the dispatch at lines 78-95.
- `Association.rdf` is not modelled. `Association` is an empty class (lines 72-74), so
  calling it from the command line raises before any output.
- The text after `=begin` is a comment block and has no behaviour.
- File access is not modelled: `File.open` and errors opening or reading the file. The file
  is the list of lines `gets` would return.
- Output goes to standard output through `print` and `puts`. It is modelled as a list of
  output lines. A value that itself contains a line feed would make one modelled line
  print as several physical lines.
- Study.rdf ignores its parameter `prefixes` and reads the global `$prefixes` instead. The
  model takes that global as the `emitPrefixes` parameter.
- StudyHeader.Lower: `downcase` is modelled for ASCII letters only. Ruby lower-cases
  non-ASCII capitals as well, which the model leaves unchanged.
- RubyString.Split: only a literal, non-space separator is modelled. `split(" ")`
  (whitespace splitting) and regular-expression separators are not, because the script
  uses neither.
- Exceptions other than IndexError from `transpose` and NoMethodError on `nil` are not
  modelled, for example ArgumentError from invalid byte sequences. Strings are modelled
  as sequences of characters, not of encoded bytes.
- Symbols (`to_sym`) are modelled as their names.
- The loop of `Study.rdf` is modelled once for any per-line renderer (`StudyRdf.PrintRows`); the
  study renderer is one instance of it.
- Block positions inside a whole run are stated for the loop's output after the directives
  (`StudyRdf.BlockAfterPreamble`, `StudyRdf.RowOutcomeAt`), not restated over the file itself.
- The subject line's prefixes, `study` and `gwas`, are named in BlockPrefixesDeclared by hand;
  the prefixes of the template entries are read off the template itself.
