/**
 Space-separated fields, as the index uses them: its in-progress markers are
 strings "<STATE> <filename>" read back with `split(" ")`, and the listing of
 committed files is the filenames joined by single spaces.
 */
module Tokens {

  /** True when `s` holds no space character. */
  predicate NoSpace(s: string)
  {
    ' ' !in s
  }

  /** True when every character of `s` is a space (in particular when `s` is empty). */
  predicate AllSpaces(s: string)
  {
    forall i :: 0 <= i < |s| ==> s[i] == ' '
  }

  /** The characters of `s` before its first space: element 0 of Java's `s.split(" ")`. */
  function Head(s: string): (h: string)
    ensures NoSpace(h)
    ensures |h| <= |s| && h == s[..|h|]
    ensures |h| < |s| ==> s[|h|] == ' '
  {
    if s == [] || s[0] == ' ' then []
    else
      var h := [s[0]] + Head(s[1..]);
      assert h == s[..|h|] by {
        assert s == [s[0]] + s[1..];
      }
      h
  }

  /** Everything after the first space of `s`; empty when `s` has no space. */
  function Tail(s: string): (t: string)
    ensures |t| <= |s|
    ensures s != [] ==> |t| < |s|
    ensures ' ' !in s ==> t == []
  {
    if s == [] then []
    else if s[0] == ' ' then s[1..]
    else Tail(s[1..])
  }

  /** A string with a space is its first field, that space, and the rest. */
  lemma {:induction false} TailSplit(s: string)
    requires ' ' in s
    ensures s == Head(s) + " " + Tail(s)
  {
    if s[0] == ' ' {
      assert s == [] + " " + s[1..];
    } else {
      assert s == [s[0]] + s[1..];
      TailSplit(s[1..]);
    }
  }

  /**
   True when Java's `s.split(" ")` has an element 1. `split` drops trailing
   empty fields, so this needs a space followed, somewhere later, by a
   character that is not a space.
   */
  predicate HasSecondField(s: string)
    ensures HasSecondField(s) <==>
              ' ' in s && exists i :: |Head(s)| < i < |s| && s[i] != ' '
  {
    if ' ' in s then
      var t, k := Tail(s), |Head(s)| + 1;
      TailSplit(s);
      assert forall j :: 0 <= j < |t| ==> t[j] == s[j + k];
      assert forall i :: k <= i < |s| ==> s[i] == t[i - k];
      !AllSpaces(t)
    else
      false
  }

  /** Element 0 of `split(" ")` of a marker: its state, which holds no space. */
  function StateField(marker: string): (state: string)
    ensures NoSpace(state) && |state| <= |marker|
  {
    Head(marker)
  }

  /** The state field is a prefix of the marker, ending at the first space or at the end. */
  lemma StateFieldPosition(marker: string)
    ensures StateField(marker) == marker[..|StateField(marker)|]
    ensures |StateField(marker)| < |marker| ==> marker[|StateField(marker)|] == ' '
  {
  }

  /**
   Element 1 of `split(" ")` of a marker: the filename it is about, which
   holds no space; empty when the marker has no space.
   */
  function NameField(marker: string): (name: string)
    ensures NoSpace(name)
    ensures ' ' !in marker ==> name == ""
  {
    Head(Tail(marker))
  }

  /**
   Where the filename field sits: right after the state field and its space,
   ending at the next space or at the end of the marker.
   */
  lemma NameFieldPosition(marker: string)
    requires ' ' in marker
    ensures var k := |StateField(marker)| + 1;
            && k + |NameField(marker)| <= |marker|
            && marker[..k] == StateField(marker) + " "
            && marker[k..k + |NameField(marker)|] == NameField(marker)
            && (k + |NameField(marker)| < |marker| ==> marker[k + |NameField(marker)|] == ' ')
  {
    var rest := Tail(marker);
    var k := |Head(marker)| + 1;
    TailSplit(marker);
    assert marker[..k] == Head(marker) + " ";
    assert marker[k..] == rest;
  }

  /** Splitting `a + " " + b` at its first space gives `a` and `b` back when `a` has no space. */
  lemma {:induction false} SplitPair(a: string, b: string)
    requires NoSpace(a)
    ensures Head(a + " " + b) == a
    ensures Tail(a + " " + b) == b
  {
    var s := a + " " + b;
    if a != [] {
      assert s[0] == a[0] && s[1..] == a[1..] + " " + b;
      SplitPair(a[1..], b);
    } else {
      assert s == [' '] + b;
    }
  }

  /** A string without spaces is its own first field and has nothing after it. */
  lemma {:induction false} HeadOfWord(a: string)
    requires NoSpace(a)
    ensures Head(a) == a && Tail(a) == []
  {
    if a != [] {
      HeadOfWord(a[1..]);
    }
  }

  /**
   A marker built as state, one space, filename splits back into exactly that
   state and that filename, when neither part holds a space and the filename
   is not empty.
   */
  lemma MarkerFields(state: string, name: string)
    requires NoSpace(state) && NoSpace(name) && name != ""
    ensures HasSecondField(state + " " + name)
    ensures StateField(state + " " + name) == state
    ensures NameField(state + " " + name) == name
  {
    var m := state + " " + name;
    SplitPair(state, name);
    HeadOfWord(name);
    assert m[|state|] == ' ';
    assert name[0] != ' ';
  }

  /**
   `String.join(" ", names)`: the names separated by single spaces. The
   listing starts with the first name, and space-free names give exactly one
   space between each pair of neighbours.
   */
  function Join(names: seq<string>): (s: string)
    ensures |names| >= 1 ==> names[0] <= s
    ensures (forall i :: 0 <= i < |names| ==> NoSpace(names[i])) ==>
              multiset(s)[' '] == if |names| == 0 then 0 else |names| - 1
  {
    if |names| == 0 then ""
    else if |names| == 1 then names[0]
    else names[0] + " " + Join(names[1..])
  }

  /** Splits `s` at every space, keeping empty fields: a reference reading of a listing. */
  function Fields(s: string): (fs: seq<string>)
    ensures |fs| >= 1
    ensures forall i :: 0 <= i < |fs| ==> NoSpace(fs[i])
    decreases |s|
  {
    if ' ' in s then [Head(s)] + Fields(Tail(s)) else [Head(s)]
  }

  /**
   Joining a non-empty list of space-free names and splitting the result
   gives the list back: a listing can be read back unambiguously.
   */
  lemma {:induction false} FieldsOfJoin(names: seq<string>)
    requires |names| >= 1
    requires forall i :: 0 <= i < |names| ==> NoSpace(names[i])
    ensures Fields(Join(names)) == names
  {
    if |names| == 1 {
      HeadOfWord(names[0]);
    } else {
      var rest := Join(names[1..]);
      SplitPair(names[0], rest);
      assert (names[0] + " " + rest)[|names[0]|] == ' ';
      FieldsOfJoin(names[1..]);
      assert names == [names[0]] + names[1..];
    }
  }
}
