/**
 * The entities of an AutoEnum class: its members (a name and, when declared with
 * `alias(...)`, a non-empty list of alias strings), the values a caller may pass
 * to a lookup, and the errors the class raises.
 */
module Members {
  import opened Wrappers
  import opened Normalization

  /**
   * One member, in declaration order. A member declared with `auto()` has no
   * aliases; one declared with `alias(a, ...)` has the (non-empty) list `aliases`.
   * Its identity is its position in the class's member list.
   */
  datatype Member = Member(name: string, aliases: seq<string>)

  /**
   * What a caller may hand to `from_str` or to a converter:
   * - Text(s): any `str` that is not a member of this class (a member of another
   *   AutoEnum class is a `str` whose `str()` is its name);
   * - EnumMember(i): the i-th member of this class;
   * - Null: Python's `None`;
   * - Object(text): any other object, `text` being what `str()` makes of it.
   */
  datatype Value = Text(s: string) | EnumMember(index: nat) | Null | Object(text: string)

  /** The ValueErrors raised by the class, told apart by their cause. */
  datatype Error =
    | Collision(entry: string, key: string)  // two entries of the lookup table normalise alike
    | NotAString                             // strict lookup of something that is not a string
    | NotFound(input: string)                // strict lookup that matched no member
    | EmptyAlias                             // `alias()` called with no argument
    | NonStringAlias(position: nat)          // `alias(...)` given a non-string argument
    | UnsupportedContainer                   // strict `convert_values` of an unknown container

  /** An argument of `alias(...)`: a string, or some other object. */
  datatype AliasArg = StrArg(s: string) | NonStrArg

  /**
   * `alias.__init__`: rejects an empty call, then checks the arguments in order
   * and rejects the first one that is not a string.
   */
  method NewAlias(args: seq<AliasArg>) returns (r: Result<seq<string>, Error>)
    ensures |args| == 0 ==> r == Err(EmptyAlias)
    ensures r.Ok? <==> |args| > 0 && forall k :: 0 <= k < |args| ==> args[k].StrArg?
    ensures r.Ok? ==> |r.value| == |args| && forall k :: 0 <= k < |args| ==> r.value[k] == args[k].s
    ensures r.Err? && |args| > 0 ==>
      exists p :: 0 <= p < |args| && r == Err(NonStringAlias(p)) && !args[p].StrArg?
        && forall k :: 0 <= k < p ==> args[k].StrArg?
  {
    if |args| == 0 {
      return Err(EmptyAlias);
    }
    var names: seq<string> := [];
    for i := 0 to |args|
      invariant |names| == i
      invariant forall k :: 0 <= k < i ==> args[k].StrArg? && names[k] == args[k].s
    {
      if !args[i].StrArg? {
        return Err(NonStringAlias(i));
      }
      names := names + [args[i].s];
    }
    r := Ok(names);
  }

  /** Python's `repr` of a string without quotes, backslashes or control characters. */
  function Quote(s: string): string
  {
    "'" + s + "'"
  }

  /** The items of `str(list)`, separated by ", ". */
  function ReprItems(xs: seq<string>): string
  {
    if xs == [] then ""
    else if |xs| == 1 then Quote(xs[0])
    else Quote(xs[0]) + ", " + ReprItems(xs[1..])
  }

  /** `str(alias(...))`, the value of an aliased member: "alias:['a', 'b']". */
  function AliasValue(aliases: seq<string>): (r: string)
    ensures |r| >= 8 && r[..7] == "alias:[" && r[|r| - 1] == ']'
  {
    "alias:[" + ReprItems(aliases) + "]"
  }

  /** A character Python allows in an identifier, restricted to ASCII. */
  predicate IsIdentChar(c: char)
  {
    IsUpper(c) || IsLower(c) || '0' <= c <= '9' || c == '_'
  }

  /**
   * The normalised alias-list value always keeps its '[' (which is neither a
   * letter nor a separator), so it never equals the key of an identifier name.
   */
  lemma AliasValueKeyNotIdentifierKey(aliases: seq<string>, name: string)
    requires forall k :: 0 <= k < |name| ==> IsIdentChar(name[k])
    ensures Normalize(AliasValue(aliases)) != Normalize(name)
  {
    AliasValueKeyHasBracket(aliases);
    IdentKeyHasNoBracket(name);
  }

  lemma AliasValueKeyHasBracket(aliases: seq<string>)
    ensures '[' in Normalize(AliasValue(aliases))
  {
    var head, tail := "alias:", "[" + ReprItems(aliases) + "]";
    assert AliasValue(aliases) == head + tail;
    NormalizeAppend(head, tail);
    assert !IsRemoved('[');
    assert Normalize(tail) == ['['] + Normalize(tail[1..]);
  }

  lemma {:induction false} IdentKeyHasNoBracket(name: string)
    requires forall k :: 0 <= k < |name| ==> IsIdentChar(name[k])
    ensures '[' !in Normalize(name)
  {
    if name != [] {
      IdentKeyHasNoBracket(name[1..]);
    }
  }
}
