/**
 * The `String` extension properties `nonEmptyString` and `camelCase`.
 * A string is a sequence of characters. Foundation's `capitalizedString`
 * is the parameter `capitalize`.
 */
module StringExtensions {
  import opened Wrappers
  import ArrayExtensions

  /** `nonEmptyString`: `nil` for the empty string, the string itself otherwise. */
  function NonEmptyString(s: string): (r: Option<string>)
    ensures r.None? <==> |s| == 0
    ensures r.Some? ==> r.value == s
  {
    ArrayExtensions.NonEmptyArray(s)
  }

  /**
   * `componentsSeparatedByString("_")`: the pieces of `s` between its
   * underscores. There is always one piece more than there are underscores,
   * so the empty string gives one empty piece, and a leading, trailing or
   * doubled underscore gives an empty piece.
   */
  function Components(s: string): (parts: seq<string>)
    ensures |parts| >= 1
    ensures forall p :: p in parts ==> '_' !in p
    decreases |s|
  {
    if s == [] then [""]
    else
      var rest := Components(s[1..]);
      if s[0] == '_' then [""] + rest
      else [[s[0]] + rest[0]] + rest[1..]
  }

  /** The pieces glued back together with an underscore between neighbours. */
  function JoinComponents(parts: seq<string>): string
    requires |parts| >= 1
    decreases |parts|
  {
    if |parts| == 1 then parts[0] else parts[0] + "_" + JoinComponents(parts[1..])
  }

  /** Joining the pieces of a string gives the string back. */
  lemma {:induction false} JoinComponentsOfString(s: string)
    ensures JoinComponents(Components(s)) == s
    decreases |s|
  {
    if s != [] {
      var rest := Components(s[1..]);
      JoinComponentsOfString(s[1..]);
      if s[0] == '_' {
        assert Components(s)[1..] == rest;
      } else if |rest| == 1 {
        assert JoinComponents(Components(s)) == [s[0]] + rest[0];
      } else {
        var parts := Components(s);
        assert parts[1..] == rest[1..];
        assert JoinComponents(rest) == rest[0] + "_" + JoinComponents(rest[1..]);
        assert JoinComponents(parts) == [s[0]] + rest[0] + "_" + JoinComponents(rest[1..]);
      }
    }
  }

  /** A prefix without underscores extends the first piece of what follows it. */
  lemma {:induction false} ComponentsOfPrefix(p: string, t: string)
    requires '_' !in p
    ensures Components(p + t) == [p + Components(t)[0]] + Components(t)[1..]
    decreases |p|
  {
    if p == [] {
      var parts := Components(t);
      assert p + t == t && p + parts[0] == parts[0];
      assert parts == [parts[0]] + parts[1..];
    } else {
      assert (p + t)[1..] == p[1..] + t;
      assert '_' !in p[1..];
      ComponentsOfPrefix(p[1..], t);
      assert p[0] != '_' by { assert p[0] in p; }
      assert [p[0]] + (p[1..] + Components(t)[0]) == p + Components(t)[0];
    }
  }

  /** Splitting pieces that hold no underscore after joining them gives the pieces back. */
  lemma {:induction false} ComponentsOfJoin(parts: seq<string>)
    requires |parts| >= 1
    requires forall p :: p in parts ==> '_' !in p
    ensures Components(JoinComponents(parts)) == parts
    decreases |parts|
  {
    if |parts| == 1 {
      ComponentsOfPrefix(parts[0], "");
      assert parts[0] + "" == parts[0];
    } else {
      assert parts[0] in parts;
      var tail := JoinComponents(parts[1..]);
      assert forall p :: p in parts[1..] ==> p in parts;
      ComponentsOfJoin(parts[1..]);
      ComponentsOfPrefix(parts[0], "_" + tail);
      assert ("_" + tail)[1..] == tail;
      assert Components("_" + tail) == [""] + parts[1..];
      assert parts[0] + "_" + tail == parts[0] + ("_" + tail);
      assert parts[0] + "" == parts[0];
    }
  }

  /** The first piece as it is, then every later piece capitalized, all concatenated. */
  function CamelJoin(parts: seq<string>, capitalize: string -> string): string
    decreases |parts|
  {
    if parts == [] then ""
    else if |parts| == 1 then parts[0]
    else CamelJoin(parts[..|parts| - 1], capitalize) + capitalize(parts[|parts| - 1])
  }

  /**
   * `camelCase`: splits the string at its underscores and concatenates the
   * pieces, the first one as it is and every later one capitalized.
   */
  method CamelCase(s: string, capitalize: string -> string) returns (result: string)
    ensures result == CamelJoin(Components(s), capitalize)
  {
    var components := Components(s);
    result := "";
    for i := 0 to |components|
      invariant result == CamelJoin(components[..i], capitalize)
    {
      assert components[..i + 1][..i] == components[..i];
      if i == 0 {
        result := result + components[i];
      } else {
        result := result + capitalize(components[i]);
      }
    }
    assert components[..|components|] == components;
  }

  /** A string without underscores is its own camel case. */
  lemma CamelCaseWithoutUnderscore(s: string, capitalize: string -> string)
    requires '_' !in s
    ensures CamelJoin(Components(s), capitalize) == s
  {
    ComponentsOfPrefix(s, "");
    assert s + "" == s;
  }

  lemma {:induction false} CamelJoinHasNoUnderscore(parts: seq<string>, capitalize: string -> string)
    requires forall p :: p in parts ==> '_' !in p
    requires forall p :: '_' !in p ==> '_' !in capitalize(p)
    ensures '_' !in CamelJoin(parts, capitalize)
    decreases |parts|
  {
    if |parts| > 1 {
      var init := parts[..|parts| - 1];
      assert forall p :: p in init ==> p in parts;
      assert parts[|parts| - 1] in parts;
      CamelJoinHasNoUnderscore(init, capitalize);
    } else if |parts| == 1 {
      assert parts[0] in parts;
    }
  }

  /** When capitalizing never introduces an underscore, a camel-cased string holds none. */
  lemma CamelCaseHasNoUnderscore(s: string, capitalize: string -> string)
    requires forall p :: '_' !in p ==> '_' !in capitalize(p)
    ensures '_' !in CamelJoin(Components(s), capitalize)
  {
    CamelJoinHasNoUnderscore(Components(s), capitalize);
  }
}
