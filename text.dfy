/**
 * Source/Text.php: a mutable string with chainable transformations, each delegating to the
 * Str helpers. Every transforming method returns the object itself.
 */
module Texts {
  import opened Wrappers
  import Str

  /**
   * The initial string as the constructor writes it (`$init ?: ''`): every falsy initial string,
   * "0" as well as null and "", becomes "".
   */
  function InitialAsWritten(init: Option<string>): string {
    if init.Some? && Str.Truthy(init.value) then init.value else ""
  }

  /** The string "0" is lost on construction. */
  lemma InitialAsWrittenLosesZero()
    ensures InitialAsWritten(Some("0")) == "" != "0"
  {
  }

  /** The strings given to append, as the optional strings concat takes. */
  function AsSubjects(subjects: seq<string>): (r: seq<Option<string>>)
    ensures |r| == |subjects| && forall k | 0 <= k < |r| :: r[k] == Some(subjects[k])
  {
    seq(|subjects|, k requires 0 <= k < |subjects| => Some(subjects[k]))
  }

  /**
   * append as written: the current string and the subjects go through concat with an empty
   * glue, which drops every falsy one, "0" included.
   */
  function AppendAsWritten(current: string, subjects: seq<string>): string {
    Str.Concat("", [Some(current)] + AsSubjects(subjects))
  }

  /** Appending "1" to "0" gives "1", not "01". */
  lemma AppendAsWrittenLosesZero()
    ensures AppendAsWritten("0", ["1"]) == "1" != "0" + "1"
  {
    var subjects := [Some("0")] + AsSubjects(["1"]);
    assert subjects == [Some("0"), Some("1")];
    assert subjects[1..] == [Some("1")];
    assert Str.TruthyOnly(subjects) == ["1"];
  }

  /** With an empty glue, implode is concatenation. */
  lemma {:induction false} JoinWithoutGlue(parts: seq<string>)
    ensures Str.Join(parts, "") == Str.Flatten(parts)
  {
    if |parts| > 1 {
      JoinWithoutGlue(parts[1..]);
      assert parts[0] + "" == parts[0];
    } else if |parts| == 1 {
      assert parts[1..] == [];
      assert parts[0] + "" == parts[0];
    }
  }

  /** Dropping empty strings does not change a concatenation. */
  lemma {:induction false} FlattenTruthy(subjects: seq<string>)
    requires forall k | 0 <= k < |subjects| :: subjects[k] != "0"
    ensures Str.Flatten(Str.TruthyOnly(AsSubjects(subjects))) == Str.Flatten(subjects)
  {
    if subjects != [] {
      FlattenTruthy(subjects[1..]);
      assert AsSubjects(subjects)[1..] == AsSubjects(subjects[1..]);
      if subjects[0] == "" {
        assert "" + Str.Flatten(subjects[1..]) == Str.Flatten(subjects[1..]);
      }
    }
  }

  lemma AsSubjectsCons(x: string, xs: seq<string>)
    ensures [Some(x)] + AsSubjects(xs) == AsSubjects([x] + xs)
  {
    var l := [Some(x)] + AsSubjects(xs);
    var r := AsSubjects([x] + xs);
    assert |l| == |r|;
    forall k | 0 <= k < |l|
      ensures l[k] == r[k]
    {
      if k > 0 {
        assert l[k] == AsSubjects(xs)[k - 1];
        assert ([x] + xs)[k] == xs[k - 1];
      }
    }
  }

  /** As long as no string is "0", append as written is plain concatenation. */
  lemma AppendAsWrittenWithoutZero(current: string, subjects: seq<string>)
    requires current != "0" && forall k | 0 <= k < |subjects| :: subjects[k] != "0"
    ensures AppendAsWritten(current, subjects) == current + Str.Flatten(subjects)
  {
    var all := [current] + subjects;
    var given := [Some(current)] + AsSubjects(subjects);
    AsSubjectsCons(current, subjects);
    assert forall k | 0 <= k < |all| :: all[k] != "0" by {
      forall k | 0 <= k < |all|
        ensures all[k] != "0"
      {
        if k > 0 {
          assert all[k] == subjects[k - 1];
        }
      }
    }
    calc {
      AppendAsWritten(current, subjects);
      Str.Join(Str.TruthyOnly(given), "");
      { JoinWithoutGlue(Str.TruthyOnly(given)); }
      Str.Flatten(Str.TruthyOnly(AsSubjects(all)));
      { FlattenTruthy(all); }
      Str.Flatten(all);
      { assert all[0] == current && all[1..] == subjects; }
      current + Str.Flatten(subjects);
    }
  }

  /**
   * concat on a Text: the current string is the first subject. A truthy current string is
   * followed by the glue and the truthy subjects, if there are any; a falsy one is dropped.
   */
  lemma ConcatOfCurrent(current: string, suffix: string, subjects: seq<Option<string>>)
    ensures Str.Truthy(current) && Str.TruthyOnly(subjects) != [] ==>
      Str.Concat(suffix, [Some(current)] + subjects) == current + suffix + Str.Concat(suffix, subjects)
    ensures Str.Truthy(current) && Str.TruthyOnly(subjects) == [] ==>
      Str.Concat(suffix, [Some(current)] + subjects) == current
    ensures !Str.Truthy(current) ==> Str.Concat(suffix, [Some(current)] + subjects) == Str.Concat(suffix, subjects)
  {
    assert ([Some(current)] + subjects)[1..] == subjects;
  }

  class Text {
    /** The underlying string. */
    var text: string

    /** A missing initial string gives "" (a falsy "0" is kept; see InitialAsWritten). */
    constructor(init: Option<string>)
      ensures text == if init.Some? then init.value else ""
    {
      text := if init.Some? then init.value else "";
    }

    /** from: a new Text. */
    static method From(init: Option<string>) returns (t: Text)
      ensures fresh(t) && t.text == if init.Some? then init.value else ""
    {
      t := new Text(init);
    }

    /** string and __toString: the current string. */
    function String(): (r: string)
      reads this
      ensures r == text
    {
      text
    }

    /** set: replaces the string. */
    method Set(s: string) returns (self: Text)
      modifies this
      ensures self == this && text == s
    {
      text := s;
      self := this;
    }

    /** append: the subjects go after the current string, with nothing between them. */
    method Append(subjects: seq<string>) returns (self: Text)
      modifies this
      ensures self == this && text == old(text) + Str.Flatten(subjects)
      ensures |text| >= |old(text)| && text[..|old(text)|] == old(text)
    {
      text := text + Str.Flatten(subjects);
      self := this;
    }

    /** concat: the current string and the subjects, the truthy ones glued with the suffix. */
    method Concat(suffix: string, subjects: seq<Option<string>>) returns (self: Text)
      modifies this
      ensures self == this && text == Str.Concat(suffix, [Some(old(text))] + subjects)
    {
      text := Str.Concat(suffix, [Some(text)] + subjects);
      self := this;
    }

    /** map: the string becomes what the callback makes of it. */
    method Map(callback: string -> string) returns (self: Text)
      modifies this
      ensures self == this && text == callback(old(text))
    {
      text := callback(text);
      self := this;
    }

    /** camel_case on the current string. */
    method CamelCase() returns (self: Text)
      modifies this
      ensures self == this && text == Str.CamelCase(old(text))
      ensures forall c | c in text :: Str.IsJoined(c)
    {
      Str.CamelCaseShape(text);
      text := Str.CamelCase(text);
      self := this;
    }

    /** kebab_case on the current string. */
    method KebabCase() returns (self: Text)
      modifies this
      ensures self == this && text == Str.KebabCase(old(text))
      ensures forall c | c in text :: !Str.IsKebabSeparator(c) && !Str.IsUpper(c)
    {
      Str.KebabCaseShape(text);
      text := Str.KebabCase(text);
      self := this;
    }

    /** pascal_case on the current string. */
    method PascalCase() returns (self: Text)
      modifies this
      ensures self == this && text == Str.PascalCase(old(text))
      ensures forall c | c in text :: Str.IsJoined(c)
    {
      Str.PascalCaseShape(text);
      text := Str.PascalCase(text);
      self := this;
    }

    /** snake_case on the current string. */
    method SnakeCase() returns (self: Text)
      modifies this
      ensures self == this && text == Str.SnakeCase(old(text))
      ensures forall c | c in text :: !Str.IsSnakeSeparator(c) && !Str.IsUpper(c)
    {
      Str.SnakeCaseShape(text);
      text := Str.SnakeCase(text);
      self := this;
    }

    /** remove_first_character: the first character goes; it and the new string make up the old one. */
    method RemoveFirstCharacter() returns (self: Text)
      modifies this
      ensures self == this && text == Str.RemoveFirstCharacter(old(text))
      ensures Str.FirstCharacter(old(text)) + text == old(text)
    {
      text := Str.RemoveFirstCharacter(text);
      self := this;
    }

    /** remove_last_character: the last character goes; the new string and it make up the old one. */
    method RemoveLastCharacter() returns (self: Text)
      modifies this
      ensures self == this && text == Str.RemoveLastCharacter(old(text))
      ensures text + Str.LastCharacter(old(text)) == old(text)
    {
      text := Str.RemoveLastCharacter(text);
      self := this;
    }
  }
}
