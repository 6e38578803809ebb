/** Redaction of audit payloads: JSON-like trees, bounded in depth and width, with secrets masked. */
module Redaction {

  datatype Json =
    | Null
    | Bool(b: bool)
    | Num(n: int)
    | Str(s: string)
    | Arr(items: seq<Json>)
    | Obj(entries: seq<(string, Json)>)

  const MAX_STRING_LEN: nat := 4000
  const MAX_ARRAY_LEN: nat := 100
  const MAX_OBJECT_KEYS: nat := 80
  const MAX_DEPTH: nat := 8
  const REDACTED := "[REDACTED]"
  const MARKER := "…[truncated]"

  const SENSITIVE := {
    "password", "passwd", "pwd", "token", "api_key", "apikey", "api-key", "secret", "authorization", "cookie",
    "access_key", "accesskey", "refresh_token", "refresh-token", "private_key", "private-key", "password_hash", "token_hash"}

  /** ASCII lower case: the only folding the case-insensitive pattern performs on these names. */
  function Lower(s: string): string {
    seq(|s|, i requires 0 <= i < |s| => if 'A' <= s[i] <= 'Z' then s[i] - 'A' + 'a' else s[i])
  }

  predicate IsSensitive(key: string) {
    Lower(key) in SENSITIVE
  }

  function First<T>(s: seq<T>, n: nat): (r: seq<T>)
    ensures |r| <= n && r <= s
  {
    if |s| <= n then s else s[..n]
  }

  function RedactString(s: string): string {
    if |s| > MAX_STRING_LEN then s[..MAX_STRING_LEN] + MARKER else s
  }

  function Redact(v: Json, depth: nat): Json
    decreases v, 0
  {
    match v
    case Str(s) => Str(RedactString(s))
    case Arr(items) =>
      if depth >= MAX_DEPTH then Str("[truncated]")
      else
        var kept := First(items, MAX_ARRAY_LEN);
        Arr(seq(|kept|, i requires 0 <= i < |kept| => Redact(kept[i], depth + 1)))
    case Obj(entries) =>
      if depth >= MAX_DEPTH then Str("[truncated]")
      else
        var kept := First(entries, MAX_OBJECT_KEYS);
        Obj(seq(|kept|, i requires 0 <= i < |kept| => (kept[i].0, RedactValue(kept[i].0, kept[i].1, depth + 1))))
    case _ => v
  }

  function RedactValue(key: string, v: Json, depth: nat): Json
    decreases v, 1
  {
    if IsSensitive(key) then Str(REDACTED) else Redact(v, depth)
  }

  /** redactSensitive, with its loops over items and entries. */
  method RedactSensitive(v: Json, depth: nat) returns (r: Json)
    ensures r == Redact(v, depth)
    decreases v
  {
    match v
    case Str(s) => r := Str(RedactString(s));
    case Arr(items) =>
      if depth >= MAX_DEPTH {
        return Str("[truncated]");
      }
      var kept := First(items, MAX_ARRAY_LEN);
      var out: seq<Json> := [];
      for k := 0 to |kept|
        invariant |out| == k && forall i :: 0 <= i < k ==> out[i] == Redact(kept[i], depth + 1)
      {
        var item := RedactSensitive(kept[k], depth + 1);
        out := out + [item];
      }
      assert Redact(v, depth).items == out;
      r := Arr(out);
    case Obj(entries) =>
      if depth >= MAX_DEPTH {
        return Str("[truncated]");
      }
      var kept := First(entries, MAX_OBJECT_KEYS);
      var out: seq<(string, Json)> := [];
      for k := 0 to |kept|
        invariant |out| == k
        invariant forall i :: 0 <= i < k ==> out[i] == (kept[i].0, RedactValue(kept[i].0, kept[i].1, depth + 1))
      {
        var val := Str(REDACTED);
        if !IsSensitive(kept[k].0) {
          val := RedactSensitive(kept[k].1, depth + 1);
        }
        out := out + [(kept[k].0, val)];
      }
      assert Redact(v, depth).entries == out;
      r := Obj(out);
    case _ => r := v;
  }

  /**
   What an audit row may hold at this depth: no container below the depth bound, bounded widths, short
   or marked strings, and the mask under every sensitive key, at every level.
   */
  ghost predicate Clean(v: Json, depth: nat)
    decreases v
  {
    match v
    case Str(s) => |s| <= MAX_STRING_LEN || s[MAX_STRING_LEN..] == MARKER
    case Arr(items) =>
      depth < MAX_DEPTH && |items| <= MAX_ARRAY_LEN && forall i :: 0 <= i < |items| ==> Clean(items[i], depth + 1)
    case Obj(entries) =>
      && depth < MAX_DEPTH && |entries| <= MAX_OBJECT_KEYS
      && (forall i :: 0 <= i < |entries| && IsSensitive(entries[i].0) ==> entries[i].1 == Str(REDACTED))
      && (forall i :: 0 <= i < |entries| ==> Clean(entries[i].1, depth + 1))
    case _ => true
  }

  /** Whatever comes in, what comes out is clean. */
  lemma {:induction false} RedactedIsClean(v: Json, depth: nat)
    ensures Clean(Redact(v, depth), depth)
    decreases v
  {
    match v
    case Arr(items) =>
      if depth < MAX_DEPTH {
        var kept := First(items, MAX_ARRAY_LEN);
        forall i | 0 <= i < |kept|
          ensures Clean(Redact(kept[i], depth + 1), depth + 1)
        {
          RedactedIsClean(kept[i], depth + 1);
        }
      }
    case Obj(entries) =>
      if depth < MAX_DEPTH {
        var kept := First(entries, MAX_OBJECT_KEYS);
        forall i | 0 <= i < |kept|
          ensures Clean(RedactValue(kept[i].0, kept[i].1, depth + 1), depth + 1)
        {
          if !IsSensitive(kept[i].0) {
            RedactedIsClean(kept[i].1, depth + 1);
          }
        }
      }
    case _ =>
  }

  /** Redaction leaves a payload alone exactly when it is clean. */
  lemma {:induction false} RedactFixesExactlyCleanValues(v: Json, depth: nat)
    ensures Redact(v, depth) == v <==> Clean(v, depth)
    decreases v
  {
    match v
    case Arr(items) =>
      if depth < MAX_DEPTH && |items| <= MAX_ARRAY_LEN {
        forall i | 0 <= i < |items|
          ensures Redact(items[i], depth + 1) == items[i] <==> Clean(items[i], depth + 1)
        {
          RedactFixesExactlyCleanValues(items[i], depth + 1);
        }
        assert Redact(v, depth) == v <==> forall i :: 0 <= i < |items| ==> Redact(v, depth).items[i] == items[i];
      }
    case Obj(entries) =>
      if depth < MAX_DEPTH && |entries| <= MAX_OBJECT_KEYS {
        forall i | 0 <= i < |entries|
          ensures Redact(v, depth).entries[i] == entries[i] <==>
                    if IsSensitive(entries[i].0) then entries[i].1 == Str(REDACTED) else Clean(entries[i].1, depth + 1)
        {
          RedactFixesExactlyCleanValues(entries[i].1, depth + 1);
        }
        assert Redact(v, depth) == v <==> forall i :: 0 <= i < |entries| ==> Redact(v, depth).entries[i] == entries[i];
      }
    case _ =>
  }

  /** Redacting twice is redacting once. */
  lemma RedactIsIdempotent(v: Json, depth: nat)
    ensures Redact(Redact(v, depth), depth) == Redact(v, depth)
  {
    RedactedIsClean(v, depth);
    RedactFixesExactlyCleanValues(Redact(v, depth), depth);
  }

  // ----- what survives -------------------------------------------------------------------------

  /** Equal but for the case of ASCII letters; `name` is in lower case. */
  predicate SameName(key: string, name: string) {
    |key| == |name| && forall i :: 0 <= i < |key| ==> key[i] == name[i] || ('a' <= name[i] <= 'z' && key[i] as int + 32 == name[i] as int)
  }

  lemma LowerIff(key: string, name: string)
    requires forall i :: 0 <= i < |name| ==> !('A' <= name[i] <= 'Z')
    ensures SameName(key, name) <==> Lower(key) == name
  {
    if SameName(key, name) {
      assert forall i :: 0 <= i < |key| ==> Lower(key)[i] == name[i];
    }
  }

  predicate IsMaskedName(name: string) {
    || name == "password" || name == "passwd" || name == "pwd" || name == "token" || name == "api_key" || name == "apikey"
    || name == "api-key" || name == "secret" || name == "authorization" || name == "cookie" || name == "access_key"
    || name == "accesskey" || name == "refresh_token" || name == "refresh-token" || name == "private_key"
    || name == "private-key" || name == "password_hash" || name == "token_hash"
  }

  /** The masked keys, in any mixture of cases, and no other. */
  lemma SensitiveIff(key: string)
    ensures IsSensitive(key) <==> exists name :: SameName(key, name) && IsMaskedName(name)
  {
    if IsSensitive(key) {
      NamesAreLower(Lower(key));
      LowerIff(key, Lower(key));
      assert SameName(key, Lower(key)) && IsMaskedName(Lower(key));
    }
    if name :| SameName(key, name) && IsMaskedName(name) {
      NamesAreLower(name);
      LowerIff(key, name);
    }
  }

  lemma NamesAreLower(name: string)
    requires name in SENSITIVE
    ensures forall i :: 0 <= i < |name| ==> !('A' <= name[i] <= 'Z')
  {
  }

  /** Scalars stay; a long string keeps its first 4000 characters, followed by the mark. */
  lemma ScalarsSurvive(v: Json, depth: nat)
    ensures v.Null? || v.Bool? || v.Num? ==> Redact(v, depth) == v
    ensures v.Str? && |v.s| <= 4000 ==> Redact(v, depth) == v
    ensures v.Str? && |v.s| > 4000 ==> Redact(v, depth) == Str(v.s[..4000] + "…[truncated]")
    ensures (v.Arr? || v.Obj?) && depth >= 8 ==> Redact(v, depth) == Str("[truncated]")
  {
  }

  /** Under a sensitive key stands the mask, whatever was there. */
  lemma SecretsAreMasked(entries: seq<(string, Json)>, i: nat, depth: nat)
    requires depth < 8 && i < |entries| && i < 80 && IsSensitive(entries[i].0)
    ensures
      var r := Redact(Obj(entries), depth);
      r.Obj? && i < |r.entries| && r.entries[i] == (entries[i].0, Str("[REDACTED]"))
  {
    assert First(entries, MAX_OBJECT_KEYS)[i] == entries[i];
  }

  function Children(v: Json): nat {
    match v
    case Arr(items) => |items|
    case Obj(entries) => |entries|
    case _ => 0
  }

  function Child(v: Json, i: nat): Json
    requires i < Children(v)
  {
    if v.Arr? then v.items[i] else v.entries[i].1
  }

  /** The part of the payload that a path of child numbers leads to. */
  function Follow(v: Json, path: seq<nat>): Json
    requires Leads(v, path)
  {
    if path == [] then v else Follow(Child(v, path[0]), path[1..])
  }

  predicate Leads(v: Json, path: seq<nat>) {
    path != [] ==> path[0] < Children(v) && Leads(Child(v, path[0]), path[1..])
  }

  /** The path stays above depth 8, among the first 100 items and 80 entries, and passes no sensitive key. */
  predicate Spared(v: Json, path: seq<nat>, depth: nat)
    requires Leads(v, path)
  {
    path != [] ==>
      && depth < 8 && path[0] < (if v.Arr? then 100 else 80)
      && (v.Obj? ==> !IsSensitive(v.entries[path[0]].0))
      && Spared(Child(v, path[0]), path[1..], depth + 1)
  }

  lemma ChildSurvives(v: Json, i: nat, depth: nat)
    requires i < Children(v) && Spared(v, [i], depth)
    ensures i < Children(Redact(v, depth)) && Child(Redact(v, depth), i) == Redact(Child(v, i), depth + 1)
    ensures v.Obj? <==> Redact(v, depth).Obj?
    ensures v.Obj? ==> Redact(v, depth).entries[i].0 == v.entries[i].0
  {
  }

  /** Where redaction spares a path, it leads to the redaction of what was there, under the same keys. */
  lemma {:induction false} SparedPathsSurvive(v: Json, path: seq<nat>, depth: nat)
    requires Leads(v, path) && Spared(v, path, depth)
    ensures Leads(Redact(v, depth), path)
    ensures Follow(Redact(v, depth), path) == Redact(Follow(v, path), depth + |path|)
    decreases |path|
  {
    if path != [] {
      assert Leads(v, [path[0]]);
      ChildSurvives(v, path[0], depth);
      SparedPathsSurvive(Child(v, path[0]), path[1..], depth + 1);
    }
  }

  lemma ChildOfResult(v: Json, i: nat, depth: nat)
    requires i < Children(Redact(v, depth))
    ensures i < Children(v) && depth < 8 && i < (if v.Arr? then 100 else 80)
    ensures Child(Redact(v, depth), i) ==
              if v.Obj? && IsSensitive(v.entries[i].0) then Str(REDACTED) else Redact(Child(v, i), depth + 1)
  {
    if v.Arr? {
      assert First(v.items, MAX_ARRAY_LEN)[i] == v.items[i];
    } else {
      assert First(v.entries, MAX_OBJECT_KEYS)[i] == v.entries[i];
    }
  }

  /** Nothing else survives: a path in the result that is not spared passes a mask, and ends in it. */
  lemma {:induction false} OnlySparedPathsSurvive(v: Json, path: seq<nat>, depth: nat)
    requires Leads(Redact(v, depth), path)
    ensures Leads(v, path)
    ensures Spared(v, path, depth) || Follow(Redact(v, depth), path) == Str(REDACTED)
    decreases |path|
  {
    if path != [] {
      var r, i := Redact(v, depth), path[0];
      ChildOfResult(v, i, depth);
      if v.Obj? && IsSensitive(v.entries[i].0) {
        assert path[1..] == [];
      } else {
        OnlySparedPathsSurvive(Child(v, i), path[1..], depth + 1);
      }
    }
  }
}
