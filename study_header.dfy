/** `GWASCatalog::Study.parse_header`: the header line of a studies file
    becomes one record key per column. */
module StudyHeader {
  import opened RubyString

  /** A character matched by Ruby's `\s`: space, tab, line feed, vertical tab, form feed, carriage return. */
  predicate IsSpace(c: char) {
    c == ' ' || c == '\t' || c == '\n' || c == '\U{B}' || c == '\U{C}' || c == '\r'
  }

  /** A character of the class `[\-\s\/]`. */
  predicate IsSeparatorChar(c: char) {
    c == '-' || c == '/' || IsSpace(c)
  }

  /** A character of the class `[\[\]]`. */
  predicate IsBracket(c: char) {
    c == '[' || c == ']'
  }

  predicate IsUpper(c: char) {
    'A' <= c <= 'Z'
  }

  /** ASCII lower-casing of one character. */
  function Lower(c: char): (l: char)
    ensures !IsUpper(l)
  {
    if IsUpper(c) then (c as int - 'A' as int + 'a' as int) as char else c
  }

  /** `String#downcase`, restricted to ASCII letters. */
  function Downcase(s: string): (r: string)
    ensures |r| == |s|
  {
    if s == "" then "" else [Lower(s[0])] + Downcase(s[1..])
  }

  /** `gsub(/[\-\s\/]/, '_')`: each hyphen, whitespace character and slash becomes one underscore. */
  function Underscore(s: string): (r: string)
    ensures |r| == |s|
  {
    if s == "" then "" else [if IsSeparatorChar(s[0]) then '_' else s[0]] + Underscore(s[1..])
  }

  /** `gsub(/[\[\]]/, '')`: square brackets are deleted. */
  function DeleteBrackets(s: string): (r: string)
    ensures |r| <= |s|
  {
    if s == "" then "" else (if IsBracket(s[0]) then "" else [s[0]]) + DeleteBrackets(s[1..])
  }

  /** `downcase` lower-cases each character in place. */
  lemma {:induction false} DowncaseAt(s: string)
    ensures forall i :: 0 <= i < |s| ==> Downcase(s)[i] == Lower(s[i])
  {
    if s != "" {
      DowncaseAt(s[1..]);
    }
  }

  /** The underscore substitution replaces each separator character in place. */
  lemma {:induction false} UnderscoreAt(s: string)
    ensures forall i :: 0 <= i < |s| ==> Underscore(s)[i] == if IsSeparatorChar(s[i]) then '_' else s[i]
  {
    if s != "" {
      UnderscoreAt(s[1..]);
    }
  }

  /** The bracket deletion leaves no bracket and keeps every other character. */
  lemma {:induction false} DeleteBracketsKeeps(s: string)
    ensures forall c :: c in DeleteBrackets(s) <==> c in s && !IsBracket(c)
  {
    if s != "" {
      DeleteBracketsKeeps(s[1..]);
      assert s == [s[0]] + s[1..];
    }
  }

  /** Removing brackets works piece by piece, so `delete("[]")` may run
      on the key before or after it is cut up. */
  lemma {:induction false} DeleteBracketsConcat(a: string, b: string)
    ensures DeleteBrackets(a + b) == DeleteBrackets(a) + DeleteBrackets(b)
  {
    if a != "" {
      DeleteBracketsConcat(a[1..], b);
      assert (a + b)[0] == a[0] && (a + b)[1..] == a[1..] + b;
    } else {
      assert a + b == b;
    }
  }

  /** A key that normalisation would leave alone. */
  predicate CleanChar(c: char) {
    !IsUpper(c) && !IsSeparatorChar(c) && !IsBracket(c)
  }

  predicate Clean(key: string) {
    forall i :: 0 <= i < |key| ==> CleanChar(key[i])
  }

  /** What one column-title character becomes in the key. */
  function NormalizeChar(c: char): (r: string)
    ensures |r| <= 1
    ensures Clean(r)
  {
    if IsBracket(c) then "" else if IsSeparatorChar(c) then "_" else [Lower(c)]
  }

  /** The key written character by character: an independent statement of the `gsub` chain. */
  function NormalizePerChar(s: string): string {
    if s == "" then "" else NormalizeChar(s[0]) + NormalizePerChar(s[1..])
  }

  /** The per-column block of `parse_header`: `downcase`, then the underscore
      substitution, then the bracket deletion, in that order. */
  function NormalizeKey(column: string): (key: string)
    ensures Clean(key)
    ensures |key| <= |column|
  {
    NormalizeKeyPerCharacter(column);
    PerCharIsClean(column);
    DeleteBrackets(Underscore(Downcase(column)))
  }

  /** The chain of substitutions acts on each character on its own. */
  lemma {:induction false} NormalizeKeyPerCharacter(column: string)
    ensures DeleteBrackets(Underscore(Downcase(column))) == NormalizePerChar(column)
  {
    if column != "" {
      NormalizeKeyPerCharacter(column[1..]);
      var d := Downcase(column);
      assert d[0] == Lower(column[0]) && d[1..] == Downcase(column[1..]);
      var u := Underscore(d);
      assert u[1..] == Underscore(d[1..]);
    }
  }

  lemma {:induction false} PerCharIsClean(s: string)
    ensures Clean(NormalizePerChar(s))
    ensures |NormalizePerChar(s)| <= |s|
  {
    if s != "" {
      PerCharIsClean(s[1..]);
      var h, t := NormalizeChar(s[0]), NormalizePerChar(s[1..]);
      assert forall i :: |h| <= i < |h + t| ==> (h + t)[i] == t[i - |h|];
    }
  }

  /** A clean key passes through normalisation unchanged. */
  lemma {:induction false} CleanKeyUnchanged(key: string)
    requires Clean(key)
    ensures NormalizeKey(key) == key
  {
    if key != "" {
      assert Clean(key[1..]) by {
        forall i | 0 <= i < |key| - 1 ensures CleanChar(key[1..][i]) {
          assert key[1..][i] == key[i + 1];
        }
      }
      CleanKeyUnchanged(key[1..]);
      NormalizeKeyPerCharacter(key);
      NormalizeKeyPerCharacter(key[1..]);
      assert CleanChar(key[0]);
      assert NormalizeChar(key[0]) == [key[0]];
      assert key == [key[0]] + key[1..];
    }
  }

  /** Normalising an already normalised key returns it unchanged. */
  lemma NormalizeKeyIdempotent(column: string)
    ensures NormalizeKey(NormalizeKey(column)) == NormalizeKey(column)
  {
    CleanKeyUnchanged(NormalizeKey(column));
  }

  /** Normalisation distributes over concatenation: each character is
      replaced on its own, so a run of two spaces gives two underscores. */
  lemma {:induction false} NormalizeKeyConcat(a: string, b: string)
    ensures NormalizeKey(a + b) == NormalizeKey(a) + NormalizeKey(b)
  {
    NormalizeKeyPerCharacter(a + b);
    NormalizeKeyPerCharacter(a);
    NormalizeKeyPerCharacter(b);
    PerCharConcat(a, b);
  }

  lemma {:induction false} PerCharConcat(a: string, b: string)
    ensures NormalizePerChar(a + b) == NormalizePerChar(a) + NormalizePerChar(b)
  {
    if a != "" {
      assert (a + b)[0] == a[0] && (a + b)[1..] == a[1..] + b;
      PerCharConcat(a[1..], b);
      assert NormalizePerChar(a + b) == NormalizeChar(a[0]) + NormalizePerChar(a[1..] + b);
      assert NormalizePerChar(a) == NormalizeChar(a[0]) + NormalizePerChar(a[1..]);
    } else {
      assert a + b == b;
    }
  }

  /** What a single character becomes: brackets vanish, a hyphen, slash or
      whitespace character becomes `_`, anything else is lower-cased (and so
      left alone unless it is an ASCII capital). */
  lemma NormalizeKeyOneChar(c: char)
    ensures IsBracket(c) ==> NormalizeKey([c]) == ""
    ensures IsSeparatorChar(c) ==> NormalizeKey([c]) == "_"
    ensures !IsBracket(c) && !IsSeparatorChar(c) ==> NormalizeKey([c]) == [Lower(c)]
  {
    NormalizeKeyPerCharacter([c]);
    assert [c][1..] == "";
    assert NormalizePerChar([c]) == NormalizeChar(c) + "";
  }

  /** Brackets are deleted after the underscore substitution. */
  lemma NormalizeKeyBracketExample()
    ensures NormalizeKey("P [x]") == "p_x"
  {
    BracketPieces();
    NormalizeKeyConcat("P ", "[x]");
    TitleHead();
    BracketedTail();
  }

  /** `P [x]` cut after its space, and the two keys glued back together. */
  lemma BracketPieces()
    ensures "P [x]" == "P " + "[x]"
    ensures "p_" + "x" == "p_x"
  {
  }

  /** `"P "` becomes `"p_"`. */
  lemma TitleHead()
    ensures NormalizeKey("P ") == "p_"
  {
    assert "P " == "P" + " ";
    NormalizeKeyConcat("P", " ");
    NormalizeKeyOneChar('P');
    NormalizeKeyOneChar(' ');
  }

  /** `"[x]"` becomes `"x"`. */
  lemma BracketedTail()
    ensures NormalizeKey("[x]") == "x"
  {
    assert "[x]" == "[" + ("x" + "]");
    NormalizeKeyConcat("[", "x]");
    NormalizeKeyConcat("x", "]");
    NormalizeKeyOneChar('[');
    NormalizeKeyOneChar('x');
    NormalizeKeyOneChar(']');
    assert "" + ("x" + "") == "x";
  }

  /** Each whitespace character becomes its own underscore. */
  lemma NormalizeKeySpaceRunExample()
    ensures NormalizeKey("a  b") == "a__b"
  {
    SpaceRunPieces();
    NormalizeKeyConcat("a", "  b");
    NormalizeKeyConcat(" ", " b");
    NormalizeKeyConcat(" ", "b");
    NormalizeKeyOneChar('a');
    NormalizeKeyOneChar(' ');
    NormalizeKeyOneChar('b');
  }

  /** `a  b` cut into its characters, and the four keys glued back together. */
  lemma SpaceRunPieces()
    ensures "a  b" == "a" + (" " + (" " + "b"))
    ensures "a" + ("_" + ("_" + "b")) == "a__b"
  {
  }

  /** Every key of a header row. */
  function NormalizeAll(columns: seq<string>): (keys: seq<string>)
    ensures |keys| == |columns|
    ensures forall i :: 0 <= i < |columns| ==> keys[i] == NormalizeKey(columns[i])
  {
    if columns == [] then [] else [NormalizeKey(columns[0])] + NormalizeAll(columns[1..])
  }

  /** `Study.parse_header`: chomp the line, split it on TAB, normalise each column. */
  function ParseHeader(header: string): (keys: seq<string>)
    ensures forall i :: 0 <= i < |keys| ==> Clean(keys[i])
  {
    NormalizeAll(Split(Chomp(header), "\t"))
  }

  /** A header line made of tab-separated column titles, ended by "\n",
      "\r\n", a final lone "\r" or nothing, gives one key per
      title, in column order, except that trailing empty titles disappear
      (leading and interior empty titles are kept). */
  lemma ParseHeaderColumns(columns: seq<string>, eol: string)
    requires forall k :: 0 <= k < |columns| ==> '\t' !in columns[k]
    requires LineEnding(Join(columns, "\t"), eol)
    ensures ParseHeader(Join(columns, "\t") + eol) == NormalizeAll(DropTrailingEmpty(columns))
  {
    var line := Join(columns, "\t");
    ChompLine(line, eol);
    SplitTabJoin(columns);
    assert Split(Chomp(line + eol), "\t") == DropTrailingEmpty(columns);
  }
}
