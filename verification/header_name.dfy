/**
 * Canonical HTTP header-name spelling, as computed by the private
 * `convert_key` of `Xingfus::NormalizedHeaderHash`:
 *
 *   key.to_s.tr('_', '-').split('-').map! { |s| s.capitalize }.join('-')
 *
 * The pipeline is modelled step by step (`Tr`, `Split`, `Capitalize`,
 * `Join`), with Ruby's rule that `String#split` drops trailing empty fields.
 * It is then related to an independent, character-by-character reference
 * (`TitleCase` of the key with trailing separators stripped), from which
 * idempotence, the shape of the output and the case/separator
 * insensitivity of the normalisation follow.
 *
 * Only ASCII letters change case; every other character is kept as is.
 */
module HeaderName {

  /* ---------------------------------------------------------------------
   * Characters
   * ------------------------------------------------------------------- */

  predicate IsUpper(c: char) { 'A' <= c <= 'Z' }

  predicate IsLower(c: char) { 'a' <= c <= 'z' }

  /** ASCII upper-casing: lower-case letters move up, nothing else moves. */
  function Upcase(c: char): (r: char)
    ensures !IsLower(r)
    ensures IsLower(c) ==> IsUpper(r)
    ensures !IsLower(c) ==> r == c
  {
    if IsLower(c) then (c as int - 32) as char else c
  }

  /** ASCII lower-casing: upper-case letters move down, nothing else moves. */
  function Downcase(c: char): (r: char)
    ensures !IsUpper(r)
    ensures IsUpper(c) ==> IsLower(r)
    ensures !IsUpper(c) ==> r == c
  {
    if IsUpper(c) then (c as int + 32) as char else c
  }

  /** Changing case twice only keeps the last change. */
  lemma CaseRoundTrip(c: char)
    ensures Downcase(Upcase(c)) == Downcase(c)
    ensures Upcase(Downcase(c)) == Upcase(c)
  {
    if IsLower(c) {
      assert Downcase(Upcase(c)) == c;
    } else if IsUpper(c) {
      assert Upcase(Downcase(c)) == c;
    }
  }

  /** `s.downcase` on ASCII letters. */
  function DowncaseAll(s: string): (r: string)
    ensures |r| == |s|
    ensures forall i :: 0 <= i < |s| ==> r[i] == Downcase(s[i])
  {
    seq(|s|, i requires 0 <= i < |s| => Downcase(s[i]))
  }

  /* ---------------------------------------------------------------------
   * The steps of `convert_key`
   * ------------------------------------------------------------------- */

  /** `tr('_', '-')`: every underscore becomes a hyphen. */
  function Tr(s: string): (r: string)
    ensures |r| == |s|
    ensures forall i :: 0 <= i < |s| ==> r[i] != '_'
    ensures forall i :: 0 <= i < |s| ==> (r[i] == '-' <==> s[i] == '-' || s[i] == '_')
    ensures forall i :: 0 <= i < |s| && s[i] != '_' ==> r[i] == s[i]
  {
    seq(|s|, i requires 0 <= i < |s| => if s[i] == '_' then '-' else s[i])
  }

  /** All hyphen-separated fields of `s`, empty ones included. */
  function Fields(s: string): seq<string>
  {
    if |s| == 0 then [""]
    else
      var rest := Fields(s[1..]);
      if s[0] == '-' then [""] + rest
      else [[s[0]] + rest[0]] + rest[1..]
  }

  /** Ruby's `split` with a limit of zero: trailing empty fields are removed. */
  function DropTrailingEmpty(fields: seq<string>): seq<string>
  {
    if |fields| > 0 && fields[|fields| - 1] == "" then
      DropTrailingEmpty(fields[..|fields| - 1])
    else
      fields
  }

  /** `split('-')`. */
  function Split(s: string): seq<string>
  {
    DropTrailingEmpty(Fields(s))
  }

  /** `capitalize`: first character upper-case, the rest lower-case. */
  function Capitalize(segment: string): (r: string)
    ensures |r| == |segment|
    ensures |r| > 0 ==> !IsLower(r[0])
    ensures forall i :: 0 < i < |r| ==> !IsUpper(r[i])
    ensures DowncaseAll(r) == DowncaseAll(segment)
  {
    if |segment| == 0 then ""
    else
      CaseRoundTrip(segment[0]);
      [Upcase(segment[0])] + DowncaseAll(segment[1..])
  }

  /** `map! { |segment| segment.capitalize }` */
  function CapitalizeEach(fields: seq<string>): (r: seq<string>)
    ensures |r| == |fields|
    ensures forall i :: 0 <= i < |r| ==> r[i] == Capitalize(fields[i])
  {
    seq(|fields|, i requires 0 <= i < |fields| => Capitalize(fields[i]))
  }

  /** `join('-')`. */
  function Join(fields: seq<string>): string
  {
    if |fields| == 0 then ""
    else if |fields| == 1 then fields[0]
    else fields[0] + "-" + Join(fields[1..])
  }

  /** `convert_key`: the canonical spelling of a header name. */
  function ConvertKey(key: string): string
  {
    Join(CapitalizeEach(Split(Tr(key))))
  }

  /* ---------------------------------------------------------------------
   * Reference definitions
   * ------------------------------------------------------------------- */

  /** `s` with every trailing hyphen removed. */
  function StripTrailingHyphens(s: string): (r: string)
    ensures |r| <= |s| && r == s[..|r|]
    ensures |r| == 0 || r[|r| - 1] != '-'
    ensures forall i :: |r| <= i < |s| ==> s[i] == '-'
  {
    if |s| > 0 && s[|s| - 1] == '-' then StripTrailingHyphens(s[..|s| - 1]) else s
  }

  /**
   * Character-by-character capitalisation of every hyphen-separated field:
   * a character that starts a field is upper-cased, every other one is
   * lower-cased.
   */
  function TitleCase(u: string): string
  {
    seq(|u|, i requires 0 <= i < |u| => if StartsField(u, i) then Upcase(u[i]) else Downcase(u[i]))
  }

  /** Position `i` of `s` opens a hyphen-separated field. */
  predicate StartsField(s: string, i: int)
    requires 0 <= i < |s|
  {
    i == 0 || s[i - 1] == '-'
  }

  /**
   * A canonical header name: no underscore, no trailing hyphen, every field
   * starts with a non-lower-case character and continues with no upper-case
   * letter.
   */
  predicate IsHeaderName(s: string)
  {
    && (forall i :: 0 <= i < |s| ==> s[i] != '_')
    && (|s| == 0 || s[|s| - 1] != '-')
    && (forall i {:trigger StartsField(s, i)} :: 0 <= i < |s| && StartsField(s, i) ==> !IsLower(s[i]))
    && (forall i {:trigger StartsField(s, i)} :: 0 <= i < |s| && !StartsField(s, i) ==> !IsUpper(s[i]))
  }

  /** Two keys spell the same name up to letter case and `_` versus `-`. */
  predicate Equivalent(a: string, b: string)
  {
    DowncaseAll(Tr(a)) == DowncaseAll(Tr(b))
  }

  /**
   * What decides a key's canonical spelling: its lower-cased form with
   * underscores read as hyphens and trailing separators ignored.
   */
  function Folded(key: string): string
  {
    DowncaseAll(StripTrailingHyphens(Tr(key)))
  }

  /* ---------------------------------------------------------------------
   * Split and join
   * ------------------------------------------------------------------- */

  /**
   * There is always at least one field, no field holds a hyphen, and a
   * string that does not end in a hyphen has a non-empty last field.
   */
  lemma {:induction false} FieldsShape(s: string)
    ensures |Fields(s)| >= 1
    ensures forall i :: 0 <= i < |Fields(s)| ==> '-' !in Fields(s)[i]
    ensures |s| > 0 && s[|s| - 1] != '-' ==> Fields(s)[|Fields(s)| - 1] != ""
  {
    if |s| > 0 {
      FieldsShape(s[1..]);
      var rest := Fields(s[1..]);
      if s[0] != '-' {
        assert '-' !in [s[0]] + rest[0];
        assert |s| > 1 ==> s[1..][|s| - 2] == s[|s| - 1];
      }
    }
  }

  /** Dropping trailing empty fields keeps a prefix whose last field, if any, is not empty. */
  lemma {:induction false} DropTrailingEmptyShape(fields: seq<string>)
    ensures |DropTrailingEmpty(fields)| <= |fields|
    ensures DropTrailingEmpty(fields) == fields[..|DropTrailingEmpty(fields)|]
    ensures |DropTrailingEmpty(fields)| == 0 || DropTrailingEmpty(fields)[|DropTrailingEmpty(fields)| - 1] != ""
    ensures forall i :: |DropTrailingEmpty(fields)| <= i < |fields| ==> fields[i] == ""
    decreases |fields|
  {
    if |fields| > 0 && fields[|fields| - 1] == "" {
      var front := fields[..|fields| - 1];
      DropTrailingEmptyShape(front);
      var r := DropTrailingEmpty(front);
      assert front[..|r|] == fields[..|r|];
      forall i | |r| <= i < |fields|
        ensures fields[i] == ""
      {
        if i < |front| {
          assert fields[i] == front[i];
        }
      }
    }
  }

  lemma {:induction false} FieldsAppendHyphen(s: string)
    ensures Fields(s + "-") == Fields(s) + [""]
  {
    if |s| == 0 {
      assert s + "-" == "-";
      assert ("-")[1..] == "";
    } else {
      assert (s + "-")[0] == s[0];
      assert (s + "-")[1..] == s[1..] + "-";
      FieldsAppendHyphen(s[1..]);
      var rest := Fields(s[1..]);
      assert (rest + [""])[0] == rest[0];
      assert (rest + [""])[1..] == rest[1..] + [""];
    }
  }

  /** Ruby's split ignores trailing hyphens: they only produce empty fields that are dropped. */
  lemma {:induction false} SplitIgnoresTrailingHyphens(t: string)
    ensures Split(t) == if StripTrailingHyphens(t) == "" then [] else Fields(StripTrailingHyphens(t))
    decreases |t|
  {
    if |t| > 0 && t[|t| - 1] == '-' {
      var t' := t[..|t| - 1];
      assert t == t' + "-";
      FieldsAppendHyphen(t');
      var fs := Fields(t');
      assert (fs + [""])[..|fs|] == fs;
      SplitIgnoresTrailingHyphens(t');
    } else if |t| == 0 {
      assert Fields(t) == [""];
      assert [""][..0] == [];
    } else {
      FieldsShape(t);
    }
  }

  /** Joining the fields of a string gives the string back. */
  lemma {:induction false} JoinFields(s: string)
    ensures Join(Fields(s)) == s
  {
    if |s| > 0 {
      var rest := Fields(s[1..]);
      JoinFields(s[1..]);
      if s[0] == '-' {
        assert ([""] + rest)[1..] == rest;
        assert s == "" + "-" + s[1..];
      } else if |rest| == 1 {
        assert s == [s[0]] + rest[0];
      } else {
        var fs := [[s[0]] + rest[0]] + rest[1..];
        assert fs[1..] == rest[1..];
        assert s == [s[0]] + (rest[0] + "-" + Join(rest[1..]));
      }
    }
  }

  /** Title-casing distributes over a hyphen. */
  lemma TitleCaseConcat(a: string, b: string)
    ensures TitleCase(a + "-" + b) == TitleCase(a) + "-" + TitleCase(b)
  {
    var x := a + "-" + b;
    var y := TitleCase(a) + "-" + TitleCase(b);
    assert |TitleCase(x)| == |y|;
    forall i | 0 <= i < |x|
      ensures TitleCase(x)[i] == y[i]
    {
      if i < |a| {
        assert x[i] == a[i];
        assert 0 < i ==> x[i - 1] == a[i - 1];
      } else if i > |a| {
        var j := i - |a| - 1;
        assert x[i] == b[j];
        assert j > 0 ==> x[i - 1] == b[j - 1];
        assert j == 0 ==> x[i - 1] == '-';
      }
    }
  }

  /** On a single field, `capitalize` and title-casing agree. */
  lemma CapitalizeIsTitleCase(segment: string)
    requires '-' !in segment
    ensures Capitalize(segment) == TitleCase(segment)
  {
    var r := Capitalize(segment);
    forall i | 0 <= i < |segment|
      ensures r[i] == TitleCase(segment)[i]
    {
      if i > 0 {
        assert segment[i - 1] != '-';
      }
    }
  }

  lemma {:induction false} JoinCapitalized(fields: seq<string>)
    requires |fields| >= 1
    requires forall i :: 0 <= i < |fields| ==> '-' !in fields[i]
    ensures Join(CapitalizeEach(fields)) == TitleCase(Join(fields))
    decreases |fields|
  {
    CapitalizeIsTitleCase(fields[0]);
    if |fields| > 1 {
      var tail := fields[1..];
      assert CapitalizeEach(fields)[1..] == CapitalizeEach(tail);
      JoinCapitalized(tail);
      TitleCaseConcat(fields[0], Join(tail));
    }
  }

  /* ---------------------------------------------------------------------
   * Properties of convert_key
   * ------------------------------------------------------------------- */

  /**
   * The split/capitalise/join pipeline equals the character-wise reference:
   * title-case the key after turning `_` into `-` and dropping trailing
   * hyphens.
   */
  lemma ConvertKeyIsTitleCase(key: string)
    ensures ConvertKey(key) == TitleCase(StripTrailingHyphens(Tr(key)))
  {
    var u := StripTrailingHyphens(Tr(key));
    SplitIgnoresTrailingHyphens(Tr(key));
    if u != "" {
      FieldsShape(u);
      JoinFields(u);
      JoinCapitalized(Fields(u));
    }
  }

  /** Title-casing changes only letters: hyphens and underscores stay where they are. */
  lemma TitleCaseKeepsSeparators(u: string)
    ensures |TitleCase(u)| == |u|
    ensures forall i {:trigger TitleCase(u)[i]} :: 0 <= i < |u| ==> (TitleCase(u)[i] == '-' <==> u[i] == '-')
    ensures forall i {:trigger TitleCase(u)[i]} :: 0 <= i < |u| ==> (TitleCase(u)[i] == '_' <==> u[i] == '_')
  {
    var r := TitleCase(u);
    forall i | 0 <= i < |u|
      ensures (r[i] == '-' <==> u[i] == '-') && (r[i] == '_' <==> u[i] == '_')
    {
      if StartsField(u, i) {
        assert r[i] == Upcase(u[i]);
      } else {
        assert r[i] == Downcase(u[i]);
      }
    }
  }

  /** Title-casing capitalises every field of its own output. */
  lemma TitleCaseCapitalises(u: string)
    ensures forall i {:trigger StartsField(TitleCase(u), i)} :: 0 <= i < |TitleCase(u)| && StartsField(TitleCase(u), i) ==> !IsLower(TitleCase(u)[i])
    ensures forall i {:trigger StartsField(TitleCase(u), i)} :: 0 <= i < |TitleCase(u)| && !StartsField(TitleCase(u), i) ==> !IsUpper(TitleCase(u)[i])
  {
    var r := TitleCase(u);
    TitleCaseKeepsSeparators(u);
    forall i | 0 <= i < |r|
      ensures StartsField(r, i) ==> !IsLower(r[i])
      ensures !StartsField(r, i) ==> !IsUpper(r[i])
    {
      if i > 0 {
        assert r[i - 1] == '-' <==> u[i - 1] == '-';
      }
      if StartsField(u, i) {
        assert r[i] == Upcase(u[i]);
      } else {
        assert r[i] == Downcase(u[i]);
      }
    }
  }

  /** Title-casing a name free of underscores and trailing hyphens yields a canonical name. */
  lemma TitleCaseIsHeaderName(u: string)
    requires forall i :: 0 <= i < |u| ==> u[i] != '_'
    requires |u| == 0 || u[|u| - 1] != '-'
    ensures IsHeaderName(TitleCase(u))
  {
    TitleCaseKeepsSeparators(u);
    TitleCaseCapitalises(u);
  }

  /** A canonical name is its own title-cased form. */
  lemma HeaderNameIsOwnTitleCase(s: string)
    requires IsHeaderName(s)
    ensures Tr(s) == s
    ensures StripTrailingHyphens(s) == s
    ensures TitleCase(s) == s
  {
    forall i | 0 <= i < |s|
      ensures TitleCase(s)[i] == s[i]
    {
    }
  }

  /**
   * The output of `convert_key` never holds `_`, never ends in `-`, and each
   * of its fields is capitalised.
   */
  lemma ConvertKeyIsHeaderName(key: string)
    ensures IsHeaderName(ConvertKey(key))
  {
    ConvertKeyIsTitleCase(key);
    TitleCaseIsHeaderName(StripTrailingHyphens(Tr(key)));
  }

  /** A key is left unchanged by `convert_key` exactly when it is a canonical name. */
  lemma ConvertKeyFixedPoint(key: string)
    ensures ConvertKey(key) == key <==> IsHeaderName(key)
  {
    ConvertKeyIsHeaderName(key);
    if IsHeaderName(key) {
      ConvertKeyIsTitleCase(key);
      HeaderNameIsOwnTitleCase(key);
    }
  }

  /** Normalising twice is normalising once. */
  lemma ConvertKeyIdempotent(key: string)
    ensures ConvertKey(ConvertKey(key)) == ConvertKey(key)
  {
    ConvertKeyIsHeaderName(key);
    ConvertKeyFixedPoint(ConvertKey(key));
  }

  /** Two strings title-case alike exactly when they lower-case alike. */
  lemma TitleCaseEqualIff(u: string, v: string)
    ensures TitleCase(u) == TitleCase(v) <==> DowncaseAll(u) == DowncaseAll(v)
  {
    if TitleCase(u) == TitleCase(v) {
      forall i | 0 <= i < |u|
        ensures Downcase(u[i]) == Downcase(v[i])
      {
        CaseRoundTrip(u[i]);
        CaseRoundTrip(v[i]);
        assert TitleCase(u)[i] == TitleCase(v)[i];
      }
    }
    if DowncaseAll(u) == DowncaseAll(v) {
      forall i | 0 <= i < |u|
        ensures TitleCase(u)[i] == TitleCase(v)[i]
      {
        CaseRoundTrip(u[i]);
        CaseRoundTrip(v[i]);
        assert DowncaseAll(u)[i] == DowncaseAll(v)[i];
        if i > 0 {
          assert DowncaseAll(u)[i - 1] == DowncaseAll(v)[i - 1];
          assert u[i - 1] == '-' <==> v[i - 1] == '-';
        }
      }
    }
  }

  /**
   * Two keys normalise to the same name exactly when they agree up to
   * letter case, `_` versus `-`, and trailing separators.
   */
  lemma ConvertKeySameIff(a: string, b: string)
    ensures ConvertKey(a) == ConvertKey(b) <==> Folded(a) == Folded(b)
  {
    ConvertKeyIsTitleCase(a);
    ConvertKeyIsTitleCase(b);
    TitleCaseEqualIff(StripTrailingHyphens(Tr(a)), StripTrailingHyphens(Tr(b)));
  }

  /** Lower-casing two strings alike lower-cases their hyphen-stripped forms alike. */
  lemma {:induction false} StripPreservesDowncaseEquality(x: string, y: string)
    requires DowncaseAll(x) == DowncaseAll(y)
    ensures DowncaseAll(StripTrailingHyphens(x)) == DowncaseAll(StripTrailingHyphens(y))
    decreases |x|
  {
    if |x| > 0 {
      var n := |x| - 1;
      assert DowncaseAll(x)[n] == DowncaseAll(y)[n];
      assert x[n] == '-' <==> y[n] == '-';
      if x[n] == '-' {
        assert DowncaseAll(x[..n]) == DowncaseAll(x)[..n];
        assert DowncaseAll(y[..n]) == DowncaseAll(y)[..n];
        StripPreservesDowncaseEquality(x[..n], y[..n]);
      }
    }
  }

  /**
   * Keys that differ only in letter case or in `_` versus `-` normalise to
   * the same name.
   */
  lemma EquivalentKeysConvertEqual(a: string, b: string)
    requires Equivalent(a, b)
    ensures ConvertKey(a) == ConvertKey(b)
  {
    StripPreservesDowncaseEquality(Tr(a), Tr(b));
    ConvertKeySameIff(a, b);
  }

  /** Ruby's `split('-')` on the edge cases: trailing fields go, leading and inner ones stay. */
  lemma SplitExamples()
    ensures Split("") == []
    ensures Split("--") == []
    ensures Split("a-") == ["a"]
    ensures Split("-a") == ["", "a"]
    ensures Split("a--b") == ["a", "", "b"]
  {
    assert ("--")[1..] == "-";
    assert ("a-")[1..] == "-";
    assert ("-a")[1..] == "a";
    assert ("a--b")[1..] == "--b";
    assert ("--b")[1..] == "-b";
    assert ("-b")[1..] == "b";
    assert Fields("") == [""];
    assert Fields("-") == ["", ""];
    assert Fields("--") == ["", "", ""];
    assert ["", "", ""][..2] == ["", ""];
    assert ["", ""][..1] == [""];
    assert [""][..0] == [];
    assert ["a", ""][..1] == ["a"];
    assert ['a'] + "" == "a";
    assert ['b'] + "" == "b";
    assert Fields("a") == ["a"];
    assert Fields("b") == ["b"];
    assert Fields("-b") == ["", "b"];
    assert Fields("--b") == ["", "", "b"];
  }

  /** `convert_key` on three spellings of one header. */
  lemma ConvertKeyContentType()
    ensures ConvertKey("content_type") == "Content-Type"
    ensures ConvertKey("CONTENT-TYPE") == "Content-Type"
    ensures ConvertKey("Content-Type") == "Content-Type"
  {
    ConvertKeyLowerSnake();
    ConvertKeyUpper();
    ConvertKeyCanonical();
  }

  lemma ConvertKeyLowerSnake()
    ensures ConvertKey("content_type") == "Content-Type"
  {
    assert TitleCase(StripTrailingHyphens(Tr("content_type"))) == "Content-Type" by {
      assert Tr("content_type") == "content-type";
      assert StripTrailingHyphens("content-type") == "content-type";
      assert TitleCase("content-type") == "Content-Type";
    }
    ConvertKeyIsTitleCase("content_type");
  }

  lemma ConvertKeyUpper()
    ensures ConvertKey("CONTENT-TYPE") == "Content-Type"
  {
    assert TitleCase(StripTrailingHyphens(Tr("CONTENT-TYPE"))) == "Content-Type" by {
      assert Tr("CONTENT-TYPE") == "CONTENT-TYPE";
      assert StripTrailingHyphens("CONTENT-TYPE") == "CONTENT-TYPE";
      assert TitleCase("CONTENT-TYPE") == "Content-Type";
    }
    ConvertKeyIsTitleCase("CONTENT-TYPE");
  }

  lemma ConvertKeyCanonical()
    ensures ConvertKey("Content-Type") == "Content-Type"
  {
    assert TitleCase(StripTrailingHyphens(Tr("Content-Type"))) == "Content-Type" by {
      assert Tr("Content-Type") == "Content-Type";
      assert StripTrailingHyphens("Content-Type") == "Content-Type";
      assert TitleCase("Content-Type") == "Content-Type";
    }
    ConvertKeyIsTitleCase("Content-Type");
  }

  /** `convert_key` keeps a leading hyphen and inner empty fields but drops trailing separators. */
  lemma ConvertKeyEdgeCases()
    ensures ConvertKey("-foo") == "-Foo"
    ensures ConvertKey("foo_") == "Foo"
    ensures ConvertKey("a__b") == "A--B"
    ensures ConvertKey("-_-") == ""
  {
    ConvertKeyLeadingHyphen();
    ConvertKeyTrailingUnderscore();
    ConvertKeyDoubledUnderscore();
    ConvertKeyOnlySeparators();
  }

  lemma ConvertKeyLeadingHyphen()
    ensures ConvertKey("-foo") == "-Foo"
  {
    assert TitleCase(StripTrailingHyphens(Tr("-foo"))) == "-Foo" by {
      assert Tr("-foo") == "-foo";
      assert StripTrailingHyphens("-foo") == "-foo";
      assert TitleCase("-foo") == "-Foo";
    }
    ConvertKeyIsTitleCase("-foo");
  }

  lemma ConvertKeyTrailingUnderscore()
    ensures ConvertKey("foo_") == "Foo"
  {
    assert TitleCase(StripTrailingHyphens(Tr("foo_"))) == "Foo" by {
      assert Tr("foo_") == "foo-";
      assert StripTrailingHyphens("foo-") == "foo";
      assert TitleCase("foo") == "Foo";
    }
    ConvertKeyIsTitleCase("foo_");
  }

  lemma ConvertKeyDoubledUnderscore()
    ensures ConvertKey("a__b") == "A--B"
  {
    assert TitleCase(StripTrailingHyphens(Tr("a__b"))) == "A--B" by {
      assert Tr("a__b") == "a--b";
      assert StripTrailingHyphens("a--b") == "a--b";
      assert TitleCase("a--b") == "A--B";
    }
    ConvertKeyIsTitleCase("a__b");
  }

  lemma ConvertKeyOnlySeparators()
    ensures ConvertKey("-_-") == ""
  {
    assert TitleCase(StripTrailingHyphens(Tr("-_-"))) == "" by {
      assert Tr("-_-") == "---";
      assert StripTrailingHyphens("---") == "";
    }
    ConvertKeyIsTitleCase("-_-");
  }
}
