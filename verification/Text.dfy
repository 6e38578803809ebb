/** Optional values: SQL NULL, a missing field, an absent result. */
module Options {

  datatype Option<+T> = None | Some(value: T)

  /** SQL COALESCE: the first value that is not NULL. */
  function Coalesce<T>(a: Option<T>, b: Option<T>): Option<T> {
    if a.Some? then a else b
  }
}

/** Facts about finite sets. */
module Sets {

  lemma SubsetCardinality<T>(a: set<T>, b: set<T>)
    requires a <= b
    ensures |a| <= |b|
    ensures |a| == |b| ==> a == b
  {
    assert b == a + (b - a);
  }

  lemma SomeMember<T>(a: set<T>) returns (x: T)
    requires a != {}
    ensures x in a
  {
    x :| x in a;
  }
}

/** The JavaScript string operations the modelled code relies on. */
module Text {

  /** The characters String.prototype.trim removes (WhiteSpace and LineTerminator). */
  predicate IsSpace(c: char) {
    var n := c as int;
    || 9 <= n <= 13 || n == 0x20 || n == 0xA0 || n == 0x1680 || 0x2000 <= n <= 0x200A
    || n == 0x2028 || n == 0x2029 || n == 0x202F || n == 0x205F || n == 0x3000 || n == 0xFEFF
  }

  function TrimStart(s: string): string {
    if s != [] && IsSpace(s[0]) then TrimStart(s[1..]) else s
  }

  function TrimEnd(s: string): string {
    if s != [] && IsSpace(s[|s| - 1]) then TrimEnd(s[..|s| - 1]) else s
  }

  function Trim(s: string): string {
    TrimEnd(TrimStart(s))
  }

  ghost predicate AllSpaces(s: string) {
    forall k :: 0 <= k < |s| ==> IsSpace(s[k])
  }

  /** s without any outer white space. */
  ghost predicate IsTrimmed(s: string) {
    s != "" ==> !IsSpace(s[0]) && !IsSpace(s[|s| - 1])
  }

  lemma {:induction false} TrimStartCuts(s: string) returns (front: string)
    ensures s == front + TrimStart(s) && AllSpaces(front) && (TrimStart(s) != "" ==> !IsSpace(TrimStart(s)[0]))
  {
    if s != [] && IsSpace(s[0]) {
      front := TrimStartCuts(s[1..]);
      front := [s[0]] + front;
    } else {
      front := "";
    }
  }

  lemma {:induction false} TrimEndCuts(s: string) returns (back: string)
    ensures s == TrimEnd(s) + back && AllSpaces(back) && (TrimEnd(s) != "" ==> !IsSpace(TrimEnd(s)[|TrimEnd(s)| - 1]))
  {
    if s != [] && IsSpace(s[|s| - 1]) {
      back := TrimEndCuts(s[..|s| - 1]);
      back := back + [s[|s| - 1]];
    } else {
      back := "";
    }
  }

  /** Trimming cuts white space off both ends, and all of it. */
  lemma TrimCutsSpaces(s: string) returns (front: string, back: string)
    ensures s == front + Trim(s) + back && AllSpaces(front) && AllSpaces(back) && IsTrimmed(Trim(s))
  {
    front := TrimStartCuts(s);
    back := TrimEndCuts(TrimStart(s));
  }

  /** Nothing else is a trimmed core of s. */
  lemma TrimIsTheCore(s: string, front: string, core: string, back: string)
    requires s == front + core + back && AllSpaces(front) && AllSpaces(back) && IsTrimmed(core)
    ensures Trim(s) == core
  {
    var a, b := TrimCutsSpaces(s);
    var t := Trim(s);
    assert forall k :: 0 <= k < |front| ==> s[k] == front[k];
    assert forall k :: 0 <= k < |a| ==> s[k] == a[k];
    assert forall k :: |s| - |back| <= k < |s| ==> s[k] == back[k - (|s| - |back|)];
    assert forall k :: |s| - |b| <= k < |s| ==> s[k] == b[k - (|s| - |b|)];
    assert forall k :: 0 <= k < |core| ==> s[|front| + k] == core[k];
    assert forall k :: 0 <= k < |t| ==> s[|a| + k] == t[k];
    assert core == "" <==> AllSpaces(s);
    assert t == "" <==> AllSpaces(s);
    if core != "" {
      assert |a| == |front| && |b| == |back|;
      assert t == s[|a|..|s| - |b|] == core;
    }
  }

  /** String.prototype.indexOf for one character; |s| stands for "not found". */
  function IndexOf(s: string, c: char): (i: nat)
    ensures i <= |s|
    ensures i < |s| ==> s[i] == c
    ensures forall k :: 0 <= k < i ==> s[k] != c
  {
    if s == [] || s[0] == c then 0 else IndexOf(s[1..], c) + 1
  }
}
