/** The parts of Ruby's String and Array classes that the converter relies on:
    `String#chomp` with the default record separator, `String#split` with a
    literal separator and no limit, and `Array#join`. */
module RubyString {

  predicate StartsWith(s: string, prefix: string) {
    |prefix| <= |s| && s[..|prefix|] == prefix
  }

  predicate EndsWith(s: string, suffix: string) {
    |suffix| <= |s| && s[|s| - |suffix|..] == suffix
  }

  /** `s` ends with a line terminator character. */
  predicate EndsWithTerminator(s: string) {
    |s| > 0 && (s[|s| - 1] == '\n' || s[|s| - 1] == '\r')
  }

  /** `String#chomp`: removes one trailing "\r\n", "\n" or "\r", preferring "\r\n". */
  function Chomp(s: string): (r: string)
    ensures r <= s && |s| <= |r| + 2
  {
    var n := |s|;
    if n >= 2 && s[n - 2] == '\r' && s[n - 1] == '\n' then s[..n - 2]
    else if EndsWithTerminator(s) then s[..n - 1]
    else s
  }

  /** `chomp` keeps a prefix and removes exactly one of "", "\n", "\r" and
      "\r\n"; it removes nothing only from text without a trailing
      terminator, and a "\n" it removes alone never follows a "\r". */
  lemma ChompRemovesOneTerminator(s: string)
    ensures Chomp(s) <= s
    ensures var cut := s[|Chomp(s)|..]; cut == "" || cut == "\n" || cut == "\r" || cut == "\r\n"
    ensures s[|Chomp(s)|..] == "" ==> !EndsWithTerminator(s)
    ensures s[|Chomp(s)|..] == "\n" ==> Chomp(s) == "" || Chomp(s)[|Chomp(s)| - 1] != '\r'
  {
    var n, r := |s|, Chomp(s);
    if n >= 2 && s[n - 2] == '\r' && s[n - 1] == '\n' {
      assert s[|r|..] == "\r\n";
    } else if EndsWithTerminator(s) {
      assert s[|r|..] == [s[n - 1]];
      assert s[|r|..] != "";
    } else {
      assert s[|r|..] == "";
    }
  }


  /** `text + eol` is a line as `gets` returns it and `chomp` takes it back
      to `text`: `eol` is "\r\n", or "\n" after text not ending in "\r", or,
      on a last line with no line feed, a lone "\r" or nothing at all. */
  predicate LineEnding(text: string, eol: string) {
    || eol == "\r\n"
    || eol == "\r"
    || (eol == "\n" && (text == "" || text[|text| - 1] != '\r'))
    || (eol == "" && !EndsWithTerminator(text))
  }

  /** A line read by `gets` loses exactly its terminator. */
  lemma ChompLine(text: string, eol: string)
    requires LineEnding(text, eol)
    ensures Chomp(text + eol) == text
  {
    assert (text + eol)[..|text|] == text;
    if eol == "" {
      assert text + eol == text;
    }
  }

  /** `sep` occurs in `s` starting at position `i`. */
  predicate MatchAt(s: string, sep: string, i: nat)
    requires i <= |s|
  {
    StartsWith(s[i..], sep)
  }

  /** No occurrence of `sep` in `s` starts before position `n`. */
  predicate NoMatchBefore(s: string, sep: string, n: nat)
    requires n <= |s|
  {
    forall i :: 0 <= i < n ==> !MatchAt(s, sep, i)
  }

  /** `s` does not contain `sep`. */
  predicate FreeOf(s: string, sep: string) {
    NoMatchBefore(s, sep, |s|)
  }

  /** The pieces of `s` between the non-overlapping occurrences of `sep`
      found by a left-to-right scan, every empty piece kept. */
  function Fields(s: string, sep: string): (r: seq<string>)
    requires sep != ""
    ensures |r| >= 1
    decreases |s|
  {
    if StartsWith(s, sep) then [""] + Fields(s[|sep|..], sep)
    else if s == "" then [""]
    else
      var rest := Fields(s[1..], sep);
      [[s[0]] + rest[0]] + rest[1..]
  }

  /** An occurrence at the start cuts off an empty first field. */
  lemma FieldsAtCut(s: string, sep: string)
    requires sep != "" && StartsWith(s, sep)
    ensures Fields(s, sep) == [""] + Fields(s[|sep|..], sep)
  {
  }

  /** Without an occurrence at the start, the first character joins the first
      field of the rest. */
  lemma FieldsInside(s: string, sep: string)
    requires sep != "" && s != "" && !StartsWith(s, sep)
    ensures Fields(s, sep) == [[s[0]] + Fields(s[1..], sep)[0]] + Fields(s[1..], sep)[1..]
  {
  }

  /** Removes the empty strings at the end of `fs`. */
  function DropTrailingEmpty(fs: seq<string>): (r: seq<string>)
    ensures r <= fs
    ensures r == [] || r[|r| - 1] != ""
    ensures forall i :: |r| <= i < |fs| ==> fs[i] == ""
  {
    if fs == [] || fs[|fs| - 1] != "" then fs else DropTrailingEmpty(fs[..|fs| - 1])
  }

  /** `String#split(sep)` for a literal separator other than " " (which Ruby
      treats as awk-style whitespace splitting) and no limit: leading and
      interior empty fields are kept, trailing ones are removed. */
  function Split(s: string, sep: string): (r: seq<string>)
    requires sep != "" && sep != " "
    ensures r == [] || r[|r| - 1] != ""
  {
    DropTrailingEmpty(Fields(s, sep))
  }

  /** No piece `split` returns contains the separator. */
  lemma SplitFreeOfSeparator(s: string, sep: string)
    requires sep != "" && sep != " "
    ensures forall i :: 0 <= i < |Split(s, sep)| ==> FreeOf(Split(s, sep)[i], sep)
  {
    FieldsFreeOfSeparator(s, sep);
    assert Split(s, sep) <= Fields(s, sep);
  }

  /** `Array#join(sep)`. */
  function Join(parts: seq<string>, sep: string): (r: string)
    ensures parts != [] ==> parts[0] <= r
  {
    if parts == [] then ""
    else if |parts| == 1 then parts[0]
    else parts[0] + sep + Join(parts[1..], sep)
  }

  /** `Join` puts the separator between the first part and the join of the rest. */
  lemma JoinCons(first: string, rest: seq<string>, sep: string)
    requires |rest| >= 1
    ensures Join([first] + rest, sep) == first + sep + Join(rest, sep)
  {
    assert ([first] + rest)[1..] == rest;
  }

  /** `Join` of two or more parts ends with the separator and the last part. */
  lemma {:induction false} JoinEndsWithSeparatorAndLast(parts: seq<string>, sep: string)
    requires |parts| >= 2
    ensures EndsWith(Join(parts, sep), sep + parts[|parts| - 1])
    decreases |parts|
  {
    var j := Join(parts, sep);
    var tail := sep + parts[|parts| - 1];
    if |parts| == 2 {
      assert Join(parts[1..], sep) == parts[1];
      assert j == parts[0] + tail;
      assert j[|j| - |tail|..] == tail;
    } else {
      JoinEndsWithSeparatorAndLast(parts[1..], sep);
      var t := Join(parts[1..], sep);
      assert j == parts[0] + sep + t;
      assert j[|j| - |tail|..] == t[|t| - |tail|..];
    }
  }

  /** An empty first part leaves only its separator in front of the rest. */
  lemma JoinEmptyFirst(rest: seq<string>, sep: string)
    requires |rest| >= 1
    ensures Join([""] + rest, sep) == sep + Join(rest, sep)
  {
    JoinCons("", rest, sep);
    assert "" + sep == sep;
  }

  /** Prefixing the first part with a character prefixes the join with it. */
  lemma JoinExtendFirst(c: char, rest: seq<string>, sep: string)
    requires |rest| >= 1
    ensures Join([[c] + rest[0]] + rest[1..], sep) == [c] + Join(rest, sep)
  {
    if |rest| > 1 {
      JoinCons([c] + rest[0], rest[1..], sep);
      JoinCons(rest[0], rest[1..], sep);
      assert rest == [rest[0]] + rest[1..];
    }
  }

  /** Joining the fields of `s` with the separator gives `s` back. */
  lemma {:induction false} JoinFields(s: string, sep: string)
    requires sep != ""
    ensures Join(Fields(s, sep), sep) == s
    decreases |s|, 1
  {
    if StartsWith(s, sep) {
      JoinFieldsAtCut(s, sep);
    } else if s != "" {
      JoinFieldsInside(s, sep);
    }
  }

  lemma {:induction false} JoinFieldsAtCut(s: string, sep: string)
    requires sep != "" && StartsWith(s, sep)
    ensures Join(Fields(s, sep), sep) == s
    decreases |s|, 0
  {
    var t := s[|sep|..];
    FieldsAtCut(s, sep);
    JoinFields(t, sep);
    JoinEmptyFirst(Fields(t, sep), sep);
    CutPrefix(s, sep);
  }

  /** A text that starts with the separator is the separator followed by the rest. */
  lemma CutPrefix(s: string, sep: string)
    requires StartsWith(s, sep)
    ensures s == sep + s[|sep|..]
  {
    assert s == s[..|sep|] + s[|sep|..];
  }

  lemma {:induction false} JoinFieldsInside(s: string, sep: string)
    requires sep != "" && s != "" && !StartsWith(s, sep)
    ensures Join(Fields(s, sep), sep) == s
    decreases |s|, 0
  {
    var t := s[1..];
    FieldsInside(s, sep);
    JoinFields(t, sep);
    JoinExtendFirst(s[0], Fields(t, sep), sep);
    assert s == [s[0]] + t;
  }

  /** The first field is where `s` begins. */
  lemma {:induction false} FirstFieldIsPrefix(s: string, sep: string)
    requires sep != ""
    ensures Fields(s, sep)[0] <= s
    decreases |s|
  {
    if !StartsWith(s, sep) && s != "" {
      FirstFieldIsPrefix(s[1..], sep);
    }
  }

  /** No field contains the separator. */
  lemma {:induction false} FieldsFreeOfSeparator(s: string, sep: string)
    requires sep != ""
    ensures forall k :: 0 <= k < |Fields(s, sep)| ==> FreeOf(Fields(s, sep)[k], sep)
    decreases |s|
  {
    var fs := Fields(s, sep);
    if StartsWith(s, sep) {
      FieldsFreeOfSeparator(s[|sep|..], sep);
    } else if s != "" {
      var rest := Fields(s[1..], sep);
      FieldsFreeOfSeparator(s[1..], sep);
      FirstFieldIsPrefix(s, sep);
      var first := fs[0];
      assert first == [s[0]] + rest[0];
      forall i | 0 <= i < |first| ensures !MatchAt(first, sep, i) {
        if i == 0 {
          assert first[0..] == first;
          assert !StartsWith(s, sep);
          assert |sep| <= |first| ==> first[..|sep|] == s[..|sep|];
        } else {
          assert first[i..] == rest[0][i - 1..];
          assert !MatchAt(rest[0], sep, i - 1);
        }
      }
      forall k | 1 <= k < |fs| ensures FreeOf(fs[k], sep) {
        assert fs[k] == rest[k];
      }
    }
  }

  /** When no occurrence of `sep` starts inside `p`, the scan of `p + t`
      runs through `p` without cutting. */
  lemma {:induction false} FieldsAfterPlainPrefix(p: string, t: string, sep: string)
    requires sep != ""
    requires NoMatchBefore(p + t, sep, |p|)
    ensures Fields(p + t, sep) == [p + Fields(t, sep)[0]] + Fields(t, sep)[1..]
    decreases |p|
  {
    if p != "" {
      var s := p + t;
      assert !MatchAt(s, sep, 0);
      assert s[0..] == s;
      assert !StartsWith(s, sep) && s != "";
      assert s[1..] == p[1..] + t;
      forall i | 0 <= i < |p| - 1 ensures !MatchAt(p[1..] + t, sep, i) {
        assert (p[1..] + t)[i..] == s[i + 1..];
        assert !MatchAt(s, sep, i + 1);
      }
      FieldsAfterPlainPrefix(p[1..], t, sep);
      var rest := Fields(s[1..], sep);
      assert rest == [p[1..] + Fields(t, sep)[0]] + Fields(t, sep)[1..];
      assert Fields(s, sep) == [[s[0]] + rest[0]] + rest[1..];
      assert s[0] == p[0];
      assert [p[0]] + (p[1..] + Fields(t, sep)[0]) == p + Fields(t, sep)[0];
    } else {
      var ft := Fields(t, sep);
      assert p + t == t;
      assert p + ft[0] == ft[0];
      assert ft == [ft[0]] + ft[1..];
    }
  }

  /** A field followed by the separator holds no occurrence that starts inside it. */
  predicate Separable(parts: seq<string>, sep: string) {
    forall k :: 0 <= k < |parts| ==> NoMatchBefore(parts[k] + sep, sep, |parts[k]|)
  }

  /** A part with no occurrence of the separator starting inside it is its own only field. */
  lemma SingleField(p: string, sep: string)
    requires sep != ""
    requires NoMatchBefore(p + sep, sep, |p|)
    ensures Fields(p, sep) == [p]
  {
    forall i | 0 <= i < |p| ensures !MatchAt(p + "", sep, i) {
      assert !MatchAt(p + sep, sep, i);
      assert p + "" == p;
      if MatchAt(p, sep, i) {
        assert false;
      }
    }
    FieldsAfterPlainPrefix(p, "", sep);
    assert p + "" == p;
  }

  /** Splitting what `Join` produced gives the parts back, provided no
      occurrence of the separator starts inside a part. */
  lemma {:induction false} FieldsOfJoin(parts: seq<string>, sep: string)
    requires sep != "" && |parts| >= 1
    requires Separable(parts, sep)
    ensures Fields(Join(parts, sep), sep) == parts
    decreases |parts|
  {
    var p := parts[0];
    assert NoMatchBefore(p + sep, sep, |p|);
    if |parts| == 1 {
      SingleField(p, sep);
    } else {
      var tail := Join(parts[1..], sep);
      var t := sep + tail;
      assert parts[0] + sep + tail == p + t;
      forall i | 0 <= i < |p| ensures !MatchAt(p + t, sep, i) {
        assert !MatchAt(p + sep, sep, i);
        assert (p + t)[i..][..|sep|] == (p + sep)[i..][..|sep|];
      }
      FieldsAfterPlainPrefix(p, t, sep);
      assert Separable(parts[1..], sep) by {
        forall k | 0 <= k < |parts| - 1 ensures NoMatchBefore(parts[1..][k] + sep, sep, |parts[1..][k]|) {
          assert parts[1..][k] == parts[k + 1];
        }
      }
      FieldsOfJoin(parts[1..], sep);
      assert StartsWith(t, sep);
      assert t[|sep|..] == tail;
      assert Fields(t, sep) == [""] + parts[1..];
      assert p + "" == p;
      assert parts == [p] + parts[1..];
    }
  }

  /** The last field is empty only when `s` ends with the separator (or is empty). */
  lemma {:induction false} EmptyLastField(s: string, sep: string)
    requires sep != "" && s != ""
    requires Fields(s, sep)[|Fields(s, sep)| - 1] == ""
    ensures EndsWith(s, sep)
    decreases |s|
  {
    if StartsWith(s, sep) {
      EmptyLastFieldAtCut(s, sep);
    } else {
      EmptyLastFieldInside(s, sep);
    }
  }

  lemma {:induction false} EmptyLastFieldAtCut(s: string, sep: string)
    requires sep != "" && StartsWith(s, sep)
    requires Fields(s, sep)[|Fields(s, sep)| - 1] == ""
    ensures EndsWith(s, sep)
    decreases |s|, 0
  {
    var t := s[|sep|..];
    var ft := Fields(t, sep);
    assert Fields(s, sep) == [""] + ft;
    if t == "" {
      assert s == sep;
    } else {
      assert ft[|ft| - 1] == "";
      EmptyLastField(t, sep);
      assert s[|s| - |sep|..] == t[|t| - |sep|..];
    }
  }

  lemma {:induction false} EmptyLastFieldInside(s: string, sep: string)
    requires sep != "" && s != "" && !StartsWith(s, sep)
    requires Fields(s, sep)[|Fields(s, sep)| - 1] == ""
    ensures EndsWith(s, sep)
    decreases |s|, 0
  {
    LastFieldStep(s, sep);
    EmptyLastField(s[1..], sep);
    EndsWithTail(s, sep);
  }

  /** Without a cut at the start, an empty last field comes from the rest of the text. */
  lemma LastFieldStep(s: string, sep: string)
    requires sep != "" && s != "" && !StartsWith(s, sep)
    requires Fields(s, sep)[|Fields(s, sep)| - 1] == ""
    ensures s[1..] != ""
    ensures Fields(s[1..], sep)[|Fields(s[1..], sep)| - 1] == ""
  {
    var rest := Fields(s[1..], sep);
    assert Fields(s, sep) == [[s[0]] + rest[0]] + rest[1..];
  }

  /** A text ends with the separator when its tail does. */
  lemma EndsWithTail(s: string, sep: string)
    requires s != "" && EndsWith(s[1..], sep)
    ensures EndsWith(s, sep)
  {
    assert s[|s| - |sep|..] == s[1..][|s[1..]| - |sep|..];
  }

  /** For a string that neither is empty nor ends with the separator, `split`
      drops nothing and joining its result gives the string back. */
  lemma SplitJoin(s: string, sep: string)
    requires sep != "" && sep != " "
    requires s != "" && !EndsWith(s, sep)
    ensures Split(s, sep) == Fields(s, sep)
    ensures |Split(s, sep)| >= 1
    ensures Join(Split(s, sep), sep) == s
  {
    SplitKeepsAllFields(s, sep);
    JoinFields(s, sep);
  }

  /** `split` drops no field of a string that neither is empty nor ends with the separator. */
  lemma SplitKeepsAllFields(s: string, sep: string)
    requires sep != "" && sep != " "
    requires s != "" && !EndsWith(s, sep)
    ensures Split(s, sep) == Fields(s, sep)
  {
    var fs := Fields(s, sep);
    if fs[|fs| - 1] == "" {
      EmptyLastField(s, sep);
    }
  }

  /** A two-character separator occurs at `i` exactly when its two characters do. */
  lemma MatchAtPair(s: string, sep: string, i: nat)
    requires |sep| == 2 && i + 2 <= |s|
    ensures MatchAt(s, sep, i) <==> s[i] == sep[0] && s[i + 1] == sep[1]
  {
    if s[i] == sep[0] && s[i + 1] == sep[1] {
      assert s[i..][..2] == sep;
    }
  }

  /** Tab-separated fields that hold no tab come back from `split("\t")`
      unchanged except that the trailing empty ones are dropped. */
  lemma SplitTabJoin(fields: seq<string>)
    requires forall k :: 0 <= k < |fields| ==> '\t' !in fields[k]
    ensures Split(Join(fields, "\t"), "\t") == DropTrailingEmpty(fields)
  {
    if fields == [] {
      assert Fields("", "\t") == [""];
    } else {
      forall k | 0 <= k < |fields| ensures NoMatchBefore(fields[k] + "\t", "\t", |fields[k]|) {
        var f := fields[k];
        forall i | 0 <= i < |f| ensures !MatchAt(f + "\t", "\t", i) {
          assert (f + "\t")[i] == f[i];
        }
      }
      FieldsOfJoin(fields, "\t");
    }
  }
}
