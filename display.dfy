/**
 * `display_name`: the member's name split at '_', each word rendered with
 * stop-word casing, the words joined with a separator. Strings are ASCII; the
 * string methods follow Python's `str.split`, `str.join`, `str.lower` and
 * `str.capitalize` on that alphabet.
 */
module Display {
  import opened Wrappers
  import opened Normalization
  import opened Members
  import opened Lookup
  import opened Resolve

  /** Python's `s.split(c)` for a one-character separator: every occurrence splits, empty parts kept. */
  function Split(s: string, c: char): (parts: seq<string>)
    ensures |parts| >= 1
  {
    if s == [] then [""]
    else
      var rest := Split(s[1..], c);
      if s[0] == c then [""] + rest
      else [[s[0]] + rest[0]] + rest[1..]
  }

  /** How often c occurs in s. */
  function Occurrences(s: string, c: char): nat
  {
    if s == [] then 0 else (if s[0] == c then 1 else 0) + Occurrences(s[1..], c)
  }

  /** Python's `sep.join(parts)`. */
  function Join(parts: seq<string>, sep: string): string
  {
    if parts == [] then ""
    else if |parts| == 1 then parts[0]
    else parts[0] + sep + Join(parts[1..], sep)
  }

  /** Python's `w.capitalize()`: the first character upper-cased, the rest lower-cased. */
  function Capitalize(w: string): (r: string)
    ensures |r| == |w| && Lower(r) == Lower(w)
    ensures w != [] ==> r[0] == ToUpper(w[0])
    ensures forall k :: 1 <= k < |r| ==> !IsUpper(r[k])
  {
    if w == [] then [] else [ToUpper(w[0])] + Lower(w[1..])
  }

  predicate IsStopWord(w: string)
  {
    Lower(w) == "of" || Lower(w) == "in" || Lower(w) == "the"
  }

  /** One word of a display name: a stop word in lower case, any other word capitalised. */
  function DisplayWord(w: string): (r: string)
    ensures |r| == |w|
    ensures IsStopWord(w) ==> forall k :: 0 <= k < |r| ==> !IsUpper(r[k])
    ensures !IsStopWord(w) && w != [] ==> r[0] == ToUpper(w[0])
    ensures !IsStopWord(w) ==> forall k :: 1 <= k < |r| ==> !IsUpper(r[k])
  {
    if IsStopWord(w) then Lower(w) else Capitalize(w)
  }

  function DisplayWords(words: seq<string>): (r: seq<string>)
  {
    seq(|words|, k requires 0 <= k < |words| => DisplayWord(words[k]))
  }

  /** `display_name(sep=sep)` of a member called `name`. */
  function DisplayName(name: string, sep: string): string
  {
    Join(DisplayWords(Split(name, '_')), sep)
  }

  // ---------------------------------------------------------------------------
  // Split and join.

  /** A string splits into one more part than it has separators. */
  lemma {:induction false} SplitCount(s: string, c: char)
    ensures |Split(s, c)| == Occurrences(s, c) + 1
  {
    if s != [] {
      SplitCount(s[1..], c);
    }
  }

  /** No part of a split holds the separator. */
  lemma {:induction false} SplitPartsFree(s: string, c: char)
    ensures forall k :: 0 <= k < |Split(s, c)| ==> c !in Split(s, c)[k]
  {
    if s != [] {
      SplitPartsFree(s[1..], c);
    }
  }

  /** Joining the parts of a split with the separator gives the string back. */
  lemma {:induction false} JoinSplit(s: string, c: char)
    ensures Join(Split(s, c), [c]) == s
  {
    if s != [] {
      JoinSplit(s[1..], c);
      var rest := Split(s[1..], c);
      if s[0] == c {
        assert Split(s, c) == [""] + rest;
        assert Join(Split(s, c), [c]) == [c] + Join(rest, [c]);
      } else {
        JoinCons(s[0], rest, [c]);
      }
      assert s == [s[0]] + s[1..];
    }
  }

  lemma JoinCons(x: char, parts: seq<string>, sep: string)
    requires parts != []
    ensures Join([[x] + parts[0]] + parts[1..], sep) == [x] + Join(parts, sep)
  {
    var ps := [[x] + parts[0]] + parts[1..];
    assert ps[1..] == parts[1..];
  }

  /** Splitting a join of separator-free parts gives the parts back. */
  lemma {:induction false} SplitJoin(parts: seq<string>, c: char)
    requires parts != []
    requires forall k :: 0 <= k < |parts| ==> c !in parts[k]
    ensures Split(Join(parts, [c]), c) == parts
  {
    if |parts| == 1 {
      SplitFree(parts[0], c);
    } else {
      SplitJoin(parts[1..], c);
      var tail := Join(parts[1..], [c]);
      assert Join(parts, [c]) == parts[0] + ([c] + tail);
      SplitPrefix(parts[0], [c] + tail, c);
      assert ([c] + tail)[1..] == tail;
      var after := Split([c] + tail, c);
      assert after == [""] + parts[1..];
      assert after[0] == "" && after[1..] == parts[1..];
      assert parts[0] + "" == parts[0];
      assert parts == [parts[0]] + parts[1..];
    }
  }

  /** A string without the separator is one part. */
  lemma {:induction false} SplitFree(w: string, c: char)
    requires c !in w
    ensures Split(w, c) == [w]
  {
    if w != [] {
      SplitFree(w[1..], c);
      assert w == [w[0]] + w[1..];
    }
  }

  /** A separator-free prefix is glued to the first part of what follows it. */
  lemma {:induction false} SplitPrefix(w: string, t: string, c: char)
    requires c !in w
    ensures Split(w + t, c) == [w + Split(t, c)[0]] + Split(t, c)[1..]
  {
    if w != [] {
      SplitPrefix(w[1..], t, c);
      var after, rest := Split(t, c), Split(w[1..] + t, c);
      assert (w + t)[1..] == w[1..] + t;
      assert (w + t)[0] == w[0] != c;
      assert Split(w + t, c) == [[w[0]] + rest[0]] + rest[1..];
      assert rest[0] == w[1..] + after[0] && rest[1..] == after[1..];
      assert [w[0]] + (w[1..] + after[0]) == w + after[0];
    } else {
      var after := Split(t, c);
      assert w + t == t;
      assert w + after[0] == after[0];
      assert after == [after[0]] + after[1..];
    }
  }

  // ---------------------------------------------------------------------------
  // What a display name keeps.

  /** The display name of `TYPE_OF_SERVICE` is "Type of Service". */
  lemma DisplayNameExample()
    ensures DisplayName("TYPE_OF_SERVICE", " ") == "Type of Service"
  {
    ExampleSplit();
    ExampleWords();
    ExampleJoin();
  }

  lemma ExampleSplit()
    ensures Split("TYPE_OF_SERVICE", '_') == ["TYPE", "OF", "SERVICE"]
  {
    var parts := ["TYPE", "OF", "SERVICE"];
    assert Join(parts, "_") == "TYPE" + "_" + Join(parts[1..], "_");
    assert Join(parts[1..], "_") == "OF" + "_" + "SERVICE";
    assert Join(parts, "_") == "TYPE_OF_SERVICE";
    SplitJoin(parts, '_');
  }

  lemma ExampleWords()
    ensures DisplayWords(["TYPE", "OF", "SERVICE"]) == ["Type", "of", "Service"]
  {
    ExampleType();
    ExampleOf();
    ExampleService();
  }

  lemma ExampleType()
    ensures DisplayWord("TYPE") == "Type"
  {
    assert Lower("TYPE") == "type" && Lower("YPE") == "ype";
    assert Capitalize("TYPE") == [ToUpper('T')] + Lower("YPE");
  }

  lemma ExampleOf()
    ensures DisplayWord("OF") == "of"
  {
    assert Lower("OF") == "of";
  }

  lemma ExampleService()
    ensures DisplayWord("SERVICE") == "Service"
  {
    assert Lower("SERVICE") == "service" && Lower("ERVICE") == "ervice";
    assert Capitalize("SERVICE") == [ToUpper('S')] + Lower("ERVICE");
  }

  lemma ExampleJoin()
    ensures Join(["Type", "of", "Service"], " ") == "Type of Service"
  {
    var shown := ["Type", "of", "Service"];
    assert Join(shown, " ") == "Type" + " " + Join(shown[1..], " ");
    assert Join(shown[1..], " ") == "of" + " " + "Service";
  }

  /** A display word differs from its word only in the case of its letters. */
  lemma DisplayWordCase(w: string)
    ensures Lower(DisplayWord(w)) == Lower(w)
    ensures |DisplayWord(w)| == |w|
  {
    if !IsStopWord(w) && w != [] {
      assert Lower(DisplayWord(w))[0] == ToLower(w[0]);
    }
  }

  /** The separator is neither a letter nor taken from the name, so display words never hold it. */
  lemma DisplayWordFree(w: string, c: char)
    requires c !in w && !IsUpper(c) && !IsLower(c)
    ensures c !in DisplayWord(w)
  {
    var d := DisplayWord(w);
    DisplayWordCase(w);
    forall k | 0 <= k < |d| ensures d[k] != c {
      assert Lower(d)[k] == Lower(w)[k];
      assert w[k] in w;
    }
  }

  /**
   * With a one-character separator that is not a letter and not in the name,
   * the display name splits back into exactly the rendered words of the name,
   * one for each '_'-separated part.
   */
  lemma DisplayNameWords(name: string, c: char)
    requires c !in name && !IsUpper(c) && !IsLower(c)
    ensures Split(DisplayName(name, [c]), c) == DisplayWords(Split(name, '_'))
    ensures |Split(DisplayName(name, [c]), c)| == Occurrences(name, '_') + 1
  {
    var words := Split(name, '_');
    SplitCount(name, '_');
    forall k | 0 <= k < |words| ensures c !in DisplayWords(words)[k] {
      SplitPartFrom(name, '_', k, c);
      DisplayWordFree(words[k], c);
    }
    SplitJoin(DisplayWords(words), c);
  }

  /**
   * The casing rule, read off a display name: each word of it is the
   * matching part of the name, all lower-case when that part is a stop word,
   * otherwise with its first character upper-cased and no capital after it.
   */
  lemma DisplayNameCasing(name: string, c: char, k: nat)
    requires c !in name && !IsUpper(c) && !IsLower(c)
    requires k < |Split(name, '_')|
    ensures k < |Split(DisplayName(name, [c]), c)|
    ensures var w, d := Split(name, '_')[k], Split(DisplayName(name, [c]), c)[k];
      |d| == |w| && Lower(d) == Lower(w) &&
      (IsStopWord(w) ==> forall j :: 0 <= j < |d| ==> !IsUpper(d[j])) &&
      (!IsStopWord(w) && w != [] ==> d[0] == ToUpper(w[0])) &&
      (!IsStopWord(w) ==> forall j :: 1 <= j < |d| ==> !IsUpper(d[j]))
  {
    DisplayNameWords(name, c);
    DisplayWordCase(Split(name, '_')[k]);
  }

  /** A character absent from a string is absent from each part of its split. */
  lemma {:induction false} SplitPartFrom(s: string, sep: char, k: nat, c: char)
    requires c !in s
    requires k < |Split(s, sep)|
    ensures c !in Split(s, sep)[k]
  {
    if s != [] {
      var rest := Split(s[1..], sep);
      if s[0] == sep {
        if k > 0 {
          SplitPartFrom(s[1..], sep, k - 1, c);
        }
      } else if k == 0 {
        SplitPartFrom(s[1..], sep, 0, c);
      } else {
        SplitPartFrom(s[1..], sep, k, c);
      }
    }
  }

  /**
   * With a separator made only of characters the normaliser deletes (the default
   * " " among them), a display name normalises to its member's key, so
   * `from_str(m.display_name())` finds m again.
   */
  lemma DisplayNameNormalizes(name: string, sep: string)
    requires forall k :: 0 <= k < |sep| ==> IsRemoved(sep[k])
    ensures Normalize(DisplayName(name, sep)) == Normalize(name)
  {
    var words := Split(name, '_');
    NormalizeSeparators(sep);
    NormalizeSeparators("_");
    NormalizeJoin(DisplayWords(words), sep);
    NormalizeJoin(words, "_");
    forall k | 0 <= k < |words| ensures Normalize(DisplayWords(words)[k]) == Normalize(words[k]) {
      DisplayWordCase(words[k]);
      NormalizeIgnoresCase(DisplayWords(words)[k], words[k]);
    }
    NormalizedPartsEqual(DisplayWords(words), words);
    JoinSplit(name, '_');
  }

  /** The normalised parts of a list of words, concatenated. */
  function NormalizedParts(parts: seq<string>): string
  {
    if parts == [] then "" else Normalize(parts[0]) + NormalizedParts(parts[1..])
  }

  /** Joining with a separator the normaliser deletes normalises to the concatenated normalised parts. */
  lemma {:induction false} NormalizeJoin(parts: seq<string>, sep: string)
    requires Normalize(sep) == []
    ensures Normalize(Join(parts, sep)) == NormalizedParts(parts)
  {
    if |parts| == 1 {
      assert NormalizedParts(parts) == Normalize(parts[0]) + NormalizedParts([]);
    } else if |parts| > 1 {
      NormalizeJoin(parts[1..], sep);
      NormalizeAppend(parts[0], sep + Join(parts[1..], sep));
      NormalizeAppend(sep, Join(parts[1..], sep));
      assert parts[0] + sep + Join(parts[1..], sep) == parts[0] + (sep + Join(parts[1..], sep));
    }
  }

  lemma {:induction false} NormalizedPartsEqual(xs: seq<string>, ys: seq<string>)
    requires |xs| == |ys|
    requires forall k :: 0 <= k < |xs| ==> Normalize(xs[k]) == Normalize(ys[k])
    ensures NormalizedParts(xs) == NormalizedParts(ys)
  {
    if xs != [] {
      NormalizedPartsEqual(xs[1..], ys[1..]);
    }
  }

  /**
   * After a successful build, `from_str(m.display_name(sep=sep))` returns m for
   * a member whose name is an identifier, when sep holds only characters the
   * normaliser deletes.
   */
  lemma FromStrFindsDisplayName(ms: seq<Member>, i: nat, sep: string, raise: bool)
    requires BuildTable(ms).Ok?
    requires i < |ms|
    requires forall k :: 0 <= k < |ms[i].name| ==> IsIdentChar(ms[i].name[k])
    requires forall k :: 0 <= k < |sep| ==> IsRemoved(sep[k])
    ensures FromStr(ms, Text(DisplayName(ms[i].name, sep)), raise) == Ok(Some(i))
  {
    DisplayNameNormalizes(ms[i].name, sep);
    FromStrFindsName(ms, i, raise);
    FromStrDependsOnKeyOnly(ms, DisplayName(ms[i].name, sep), ms[i].name, raise);
  }
}
