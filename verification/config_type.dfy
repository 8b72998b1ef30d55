/** `Config.GetType` of the config compiler: the Go type a field-type cell
    denotes. A basic type maps through `basicTypeName`, `[]T` becomes
    `map[int]` of a basic `T` (or the type of `T`), and anything else is
    read as a `{name:type,...}` struct whose top-level fields are split at
    the commas outside nested braces. */
module ConfigType {
  import opened Common
  import opened GoText

  /** A `}` with no open `{` before it; the source pops an empty slice and panics. */
  datatype SplitError = UnmatchedBrace(at: nat)

  /** The helpers `GetType` calls but that are not part of this model:
      the `basicTypeName` table, `str.KV(_, ":")` and `str.FirstUpper`. */
  datatype TypeEnv = TypeEnv(basic: map<string, string>, kv: string -> (string, string), firstUpper: string -> string)

  /** The type half of `str.KV` is shorter than its input, so the recursion into field types ends. */
  ghost predicate KvShrinks(kv: string -> (string, string))
  {
    forall x :: |kv(x).1| < |x| || (x == [] && kv(x).1 == [])
  }

  // ---------------------------------------------------------------------------
  // The field splitter

  /** The nesting depth after reading `c` at depth `depth`. */
  function NextDepth(c: char, depth: nat): nat
  {
    if c == '{' then depth + 1 else if c == '}' && depth > 0 then depth - 1 else depth
  }

  /** Some `}` of `t` closes a brace that was never opened, starting at depth `depth`. */
  predicate Underflows(t: string, depth: nat)
  {
    |t| > 0 && ((t[0] == '}' && depth == 0) || Underflows(t[1..], NextDepth(t[0], depth)))
  }

  /** `t` with the commas outside every brace removed, starting at depth `depth`. */
  function DropTopCommas(t: string, depth: nat): (r: string)
    ensures |r| <= |t|
  {
    if |t| == 0 then []
    else (if t[0] == ',' && depth == 0 then [] else [t[0]]) + DropTopCommas(t[1..], NextDepth(t[0], depth))
  }

  function Concat(fields: seq<string>): string
  {
    if |fields| == 0 then [] else Concat(fields[..|fields| - 1]) + fields[|fields| - 1]
  }

  /** The splitter loop from position `i`, with `depth` open braces, the
      field read so far and the fields already closed. */
  function SplitFrom(s: string, i: nat, depth: nat, field: string, fields: seq<string>): Result<seq<string>, SplitError>
    requires i <= |s|
    decreases |s| - i
  {
    if i == |s| then Ok(if |field| > 0 then fields + [field] else fields)
    else if s[i] == ',' then
      if depth == 0 then SplitFrom(s, i + 1, 0, [], fields + [field])
      else SplitFrom(s, i + 1, depth, field + [','], fields)
    else if s[i] == '{' then SplitFrom(s, i + 1, depth + 1, field + ['{'], fields)
    else if s[i] == '}' then
      if depth == 0 then Err(UnmatchedBrace(i))
      else if depth == 1 then SplitFrom(s, i + 1, 0, [], fields + [field + ['}']])
      else SplitFrom(s, i + 1, depth - 1, field + ['}'], fields)
    else SplitFrom(s, i + 1, depth, field + [s[i]], fields)
  }

  /** The top-level fields of a struct body: it fails exactly on an unmatched
      `}`; otherwise the fields are the pieces between the cut positions, and
      put back together they are the body without its top-level commas. */
  function Split(s: string): (r: Result<seq<string>, SplitError>)
    ensures r.Err? <==> Underflows(s, 0)
    ensures r.Ok? ==> r.value == Pieces(s)
    ensures r.Ok? ==> Concat(r.value) == DropTopCommas(s, 0)
    ensures r.Ok? ==> forall j :: 0 <= j < |r.value| ==> |r.value[j]| <= |s|
  {
    SplitFails(s, 0, 0, [], []);
    SplitJoins(s, 0, 0, [], []);
    assert s[0..] == s;
    var r := SplitFrom(s, 0, 0, [], []);
    if r.Ok? then
      ConcatBounds(r.value);
      SplitPieces(s, 0, 0, [], []);
      assert [] + s[0..] == s;
      r
    else r
  }

  // ---------------------------------------------------------------------------
  // Where the fields end, stated by position

  /** The nesting depth after reading all of `u` from depth 0. */
  function DepthAfter(u: string): nat
  {
    if |u| == 0 then 0 else NextDepth(u[|u| - 1], DepthAfter(u[..|u| - 1]))
  }

  /** Position `k` of `u` ends a field: a comma outside every brace (dropped),
      or the `}` that closes the outermost open brace (kept). */
  predicate IsCut(u: string, k: int)
  {
    0 <= k < |u| &&
    ((u[k] == ',' && DepthAfter(u[..k]) == 0) || (u[k] == '}' && DepthAfter(u[..k]) == 1))
  }

  predicate NoCut(u: string)
  {
    forall k :: 0 <= k < |u| ==> !IsCut(u, k)
  }

  /** The first cut of `u` at or after `k`, or `|u|` when there is none. */
  function FirstCutFrom(u: string, k: nat): (r: nat)
    requires k <= |u|
    ensures k <= r <= |u|
    ensures forall j :: k <= j < r ==> !IsCut(u, j)
    ensures r < |u| ==> IsCut(u, r)
    decreases |u| - k
  {
    if k == |u| then |u| else if IsCut(u, k) then k else FirstCutFrom(u, k + 1)
  }

  /** The reference field list: cut `u` at its first cut and go on with the
      rest; a cut comma is dropped, a cut `}` stays with its field, and an
      empty last piece is not a field. */
  function Pieces(u: string): seq<string>
    decreases |u|
  {
    var k := FirstCutFrom(u, 0);
    if k == |u| then (if |u| > 0 then [u] else [])
    else if u[k] == ',' then [u[..k]] + Pieces(u[k + 1..])
    else [u[..k + 1]] + Pieces(u[k + 1..])
  }

  /** A field whose only cut, if any, is the `}` it ends with. */
  predicate ClosedAtEnd(f: string)
  {
    forall k :: 0 <= k < |f| && IsCut(f, k) ==> k == |f| - 1 && f[k] == '}'
  }

  lemma DepthSnoc(u: string, c: char)
    ensures DepthAfter(u + [c]) == NextDepth(c, DepthAfter(u))
  {
    assert (u + [c])[..|u|] == u;
  }

  /** Cuts before the end of a prefix are the prefix's own cuts. */
  lemma CutPrefix(u: string, p: string, j: int)
    requires |p| <= |u| && u[..|p|] == p && 0 <= j < |p|
    ensures IsCut(u, j) <==> IsCut(p, j)
  {
    assert u[..j] == p[..j];
  }

  /** The first cut is the cut with no cut before it. */
  lemma FirstCutIs(u: string, k: nat)
    requires k < |u| && IsCut(u, k) && forall j :: 0 <= j < k ==> !IsCut(u, j)
    ensures FirstCutFrom(u, 0) == k
  {
  }

  /** A cut-free piece has no cut at all. */
  lemma NoCutFirst(u: string)
    requires NoCut(u)
    ensures FirstCutFrom(u, 0) == |u|
  {
  }

  /** A cut right after a cut-free open field closes that field. */
  lemma CutAfter(field: string, c: char, rest: string)
    requires NoCut(field)
    requires (c == ',' && DepthAfter(field) == 0) || (c == '}' && DepthAfter(field) == 1)
    ensures Pieces(field + [c] + rest) == [if c == ',' then field else field + [c]] + Pieces(rest)
  {
    var t := field + [c] + rest;
    assert t[..|field|] == field && t[|field|] == c;
    forall j | 0 <= j < |field| ensures !IsCut(t, j) {
      CutPrefix(t, field, j);
    }
    assert IsCut(t, |field|);
    FirstCutIs(t, |field|);
    assert t[..|field| + 1] == field + [c];
    assert t[|field| + 1..] == rest;
  }

  /** A character that is not a cut extends a cut-free field. */
  lemma GrowField(field: string, c: char)
    requires NoCut(field)
    requires !((c == ',' && DepthAfter(field) == 0) || (c == '}' && DepthAfter(field) == 1))
    ensures NoCut(field + [c]) && DepthAfter(field + [c]) == NextDepth(c, DepthAfter(field))
  {
    var f2 := field + [c];
    DepthSnoc(field, c);
    forall j | 0 <= j < |f2| ensures !IsCut(f2, j) {
      if j < |field| {
        CutPrefix(f2, field, j);
      } else {
        assert f2[..j] == field;
      }
    }
  }

  /** The splitter loop, with a cut-free open field whose depth it tracks,
      ends with the closed fields followed by the pieces of the open field
      and the rest of the input. */
  lemma {:induction false} SplitPieces(s: string, i: nat, depth: nat, field: string, fields: seq<string>)
    requires i <= |s| && depth == DepthAfter(field) && NoCut(field)
    requires !Underflows(s[i..], depth)
    ensures SplitFrom(s, i, depth, field, fields) == Ok(fields + Pieces(field + s[i..]))
    decreases |s| - i
  {
    var goal := SplitFrom(s, i, depth, field, fields) == Ok(fields + Pieces(field + s[i..]));
    if i == |s| {
      assert goal by {
        assert field + s[i..] == field;
        NoCutFirst(field);
        assert Pieces(field) == if |field| > 0 then [field] else [];
        assert fields + [] == fields;
      }
    } else {
      var c := s[i];
      var rest := s[i + 1..];
      ScanStep(s, i, depth);
      if (c == ',' && depth == 0) || (c == '}' && depth == 1) {
        assert goal by {
          var closed := if c == ',' then field else field + [c];
          assert SplitFrom(s, i, depth, field, fields) == SplitFrom(s, i + 1, 0, [], fields + [closed]);
          assert !Underflows(s[i + 1..], 0);
          SplitPieces(s, i + 1, 0, [], fields + [closed]);
          SeqStep(field, s, i);
          CutAfter(field, c, rest);
          AppendOne(fields, closed, Pieces(rest), rest);
        }
      } else {
        assert c != '}' || depth > 1;
        assert goal by {
          assert SplitFrom(s, i, depth, field, fields) == SplitFrom(s, i + 1, NextDepth(c, depth), field + [c], fields);
          GrowField(field, c);
          SplitPieces(s, i + 1, NextDepth(c, depth), field + [c], fields);
          SeqStep(field, s, i);
        }
      }
    }
  }

  lemma SeqStep<T>(a: seq<T>, s: seq<T>, i: nat)
    requires i < |s|
    ensures a + s[i..] == a + [s[i]] + s[i + 1..]
  {
    assert s[i..] == [s[i]] + s[i + 1..];
  }

  lemma AppendOne<T, U>(a: seq<T>, x: T, b: seq<T>, u: seq<U>)
    ensures a + [x] + b == a + ([x] + b) && [] + u == u
  {
  }

  /** In the reference field list, a field holds no comma outside its braces,
      and the only `}` that brings it back to depth 0 is its last character. */
  lemma {:induction false} PieceBoundaries(u: string)
    ensures forall j :: 0 <= j < |Pieces(u)| ==> ClosedAtEnd(Pieces(u)[j])
    decreases |u|
  {
    var k := FirstCutFrom(u, 0);
    if k < |u| {
      var p := if u[k] == ',' then u[..k] else u[..k + 1];
      var rest := Pieces(u[k + 1..]);
      assert Pieces(u) == [p] + rest;
      PieceBoundaries(u[k + 1..]);
      assert ClosedAtEnd(p) by {
        forall j | IsCut(p, j) ensures j == |p| - 1 && p[j] == '}' {
          if j < k {
            CutPrefix(u, p, j);
          }
        }
      }
      forall j | 0 <= j < |Pieces(u)| ensures ClosedAtEnd(Pieces(u)[j]) {
        if j > 0 {
          assert Pieces(u)[j] == rest[j - 1];
        }
      }
    } else if |u| > 0 {
      assert ClosedAtEnd(u);
    }
  }

  /** The splitter fails exactly when the rest of the input closes a brace it never opened. */
  lemma {:induction false} SplitFails(s: string, i: nat, depth: nat, field: string, fields: seq<string>)
    requires i <= |s|
    ensures SplitFrom(s, i, depth, field, fields).Err? <==> Underflows(s[i..], depth)
    decreases |s| - i
  {
    if i < |s| {
      ScanStep(s, i, depth);
      var c := s[i];
      if c == ',' && depth == 0 {
        SplitFails(s, i + 1, 0, [], fields + [field]);
      } else if c == ',' {
        SplitFails(s, i + 1, depth, field + [','], fields);
      } else if c == '{' {
        SplitFails(s, i + 1, depth + 1, field + ['{'], fields);
      } else if c == '}' && depth == 1 {
        SplitFails(s, i + 1, 0, [], fields + [field + ['}']]);
      } else if c == '}' && depth > 1 {
        SplitFails(s, i + 1, depth - 1, field + ['}'], fields);
      } else if c != '}' {
        SplitFails(s, i + 1, depth, field + [c], fields);
      }
    }
  }

  /** On success the fields put back together are what was closed before,
      the open field, and the rest of the input without its top-level commas. */
  lemma {:induction false} SplitJoins(s: string, i: nat, depth: nat, field: string, fields: seq<string>)
    requires i <= |s|
    ensures SplitFrom(s, i, depth, field, fields).Ok? ==>
              Concat(SplitFrom(s, i, depth, field, fields).value) == Concat(fields) + field + DropTopCommas(s[i..], depth)
    decreases |s| - i
  {
    if i < |s| {
      ScanStep(s, i, depth);
      var c := s[i];
      var rest := DropTopCommas(s[i + 1..], NextDepth(c, depth));
      if c == ',' && depth == 0 {
        SplitJoins(s, i + 1, 0, [], fields + [field]);
        ConcatLast(fields, field);
        assert Concat(fields + [field]) + [] + rest == Concat(fields) + field + ([] + rest);
      } else if c == '}' && depth == 1 {
        SplitJoins(s, i + 1, 0, [], fields + [field + ['}']]);
        ConcatLast(fields, field + ['}']);
        Shift(Concat(fields), field, [c], rest);
        assert Concat(fields + [field + ['}']]) + [] + rest == Concat(fields) + (field + [c]) + rest;
      } else if c != '}' || depth > 1 {
        SplitJoins(s, i + 1, NextDepth(c, depth), field + [c], fields);
        Shift(Concat(fields), field, [c], rest);
      }
    } else if |field| > 0 {
      ConcatLast(fields, field);
    }
  }

  lemma Shift<T>(a: seq<T>, b: seq<T>, c: seq<T>, d: seq<T>)
    ensures a + b + (c + d) == a + (b + c) + d
  {
  }

  /** Reading one character of the rest of the input. */
  lemma ScanStep(s: string, i: nat, depth: nat)
    requires i < |s|
    ensures Underflows(s[i..], depth) <==> (s[i] == '}' && depth == 0) || Underflows(s[i + 1..], NextDepth(s[i], depth))
    ensures DropTopCommas(s[i..], depth) ==
              (if s[i] == ',' && depth == 0 then [] else [s[i]]) + DropTopCommas(s[i + 1..], NextDepth(s[i], depth))
  {
    assert s[i..][1..] == s[i + 1..];
  }

  /** Closing one more field appends it to the text of the fields. */
  lemma ConcatLast(fields: seq<string>, field: string)
    ensures Concat(fields + [field]) == Concat(fields) + field
  {
    assert (fields + [field])[..|fields|] == fields;
  }

  /** No field is longer than all of them together. */
  lemma {:induction false} ConcatBounds(fields: seq<string>)
    ensures forall j :: 0 <= j < |fields| ==> |fields[j]| <= |Concat(fields)|
  {
    if |fields| > 0 {
      var init := fields[..|fields| - 1];
      ConcatBounds(init);
      assert forall j :: 0 <= j < |init| ==> fields[j] == init[j];
    }
  }

  // ---------------------------------------------------------------------------
  // GetType

  /** `GetType(ft)`: the basic name; for `[]T` the map of a basic `T` or the
      type of `T`; otherwise a struct of the fields of `ft` with one outer
      brace pair stripped, failing on an unmatched `}`. */
  function GetType(ft: string, env: TypeEnv): (r: Result<string, SplitError>)
    requires KvShrinks(env.kv)
    decreases |ft|, 1
  {
    if ft in env.basic then Ok(env.basic[ft])
    else if HasPrefix(ft, "[]") then
      var s := TrimPrefix(ft, "[]");
      if s in env.basic then Ok("map[int]" + env.basic[s]) else GetType(s, env)
    else
      var s := TrimSuffix(TrimPrefix(ft, "{"), "}");
      var split := Split(s);
      if split.Err? then Err(split.error)
      else
        var body := RenderFields(split.value, env, |ft|);
        if body.Err? then body else Ok("*struct {\n" + body.value + "}")
  }

  /** One `Name Type` line per field, in order, stopping at the first failure. */
  function RenderFields(fields: seq<string>, env: TypeEnv, bound: nat): Result<string, SplitError>
    requires KvShrinks(env.kv)
    requires forall j :: 0 <= j < |fields| ==> |fields[j]| <= bound
    requires |fields| > 0 ==> bound > 0
    decreases bound, 0, |fields|
  {
    if |fields| == 0 then Ok("")
    else
      var pair := env.kv(TrimSpace(fields[0]));
      var typ := if pair.1 in env.basic then Ok(env.basic[pair.1]) else GetType(pair.1, env);
      if typ.Err? then typ
      else
        var rest := RenderFields(fields[1..], env, bound);
        if rest.Err? then rest
        else Ok(env.firstUpper(pair.0) + " " + typ.value + "\n" + rest.value)
  }

  /** The type of one field renders: basic, or a type `GetType` accepts. */
  predicate FieldTypeOk(f: string, env: TypeEnv)
    requires KvShrinks(env.kv)
  {
    var ty := env.kv(TrimSpace(f)).1;
    ty in env.basic || GetType(ty, env).Ok?
  }

  /** Rendering the fields fails exactly when the type of one of them fails. */
  lemma {:induction false} RenderFieldsOk(fields: seq<string>, env: TypeEnv, bound: nat)
    requires KvShrinks(env.kv)
    requires forall j :: 0 <= j < |fields| ==> |fields[j]| <= bound
    requires |fields| > 0 ==> bound > 0
    ensures RenderFields(fields, env, bound).Ok? <==> forall j :: 0 <= j < |fields| ==> FieldTypeOk(fields[j], env)
    decreases |fields|
  {
    if |fields| > 0 {
      var rest := fields[1..];
      RenderFieldsOk(rest, env, bound);
      RenderStep(fields, env, bound);
      FieldsOkCons(fields, env);
    }
  }

  lemma FieldsOkCons(fields: seq<string>, env: TypeEnv)
    requires KvShrinks(env.kv) && |fields| > 0
    ensures (forall j :: 0 <= j < |fields| ==> FieldTypeOk(fields[j], env)) <==>
            FieldTypeOk(fields[0], env) && forall j :: 0 <= j < |fields[1..]| ==> FieldTypeOk(fields[1..][j], env)
  {
    assert forall j :: 1 <= j < |fields| ==> fields[j] == fields[1..][j - 1];
  }

  /** One field: the rendering goes on past it exactly when its type renders. */
  lemma RenderStep(fields: seq<string>, env: TypeEnv, bound: nat)
    requires KvShrinks(env.kv)
    requires forall j :: 0 <= j < |fields| ==> |fields[j]| <= bound
    requires |fields| > 0 && bound > 0
    ensures RenderFields(fields, env, bound).Ok? <==>
              FieldTypeOk(fields[0], env) && RenderFields(fields[1..], env, bound).Ok?
  {
  }

  /** A struct type is accepted exactly when its body has no unmatched `}`
      and the type of every one of its fields is accepted. */
  lemma StructSucceeds(ft: string, env: TypeEnv)
    requires KvShrinks(env.kv)
    requires ft !in env.basic && !HasPrefix(ft, "[]")
    ensures var s := TrimSuffix(TrimPrefix(ft, "{"), "}");
            GetType(ft, env).Ok? <==>
              !Underflows(s, 0) && forall j :: 0 <= j < |Pieces(s)| ==> FieldTypeOk(Pieces(s)[j], env)
  {
    var s := TrimSuffix(TrimPrefix(ft, "{"), "}");
    StructUnfold(ft, env);
    if !Underflows(s, 0) {
      RenderFieldsOk(Pieces(s), env, |ft|);
    }
  }

  /** The struct branch of `GetType`: it succeeds exactly when the body
      splits and its fields render. */
  lemma StructUnfold(ft: string, env: TypeEnv)
    requires KvShrinks(env.kv)
    requires ft !in env.basic && !HasPrefix(ft, "[]")
    ensures var s := TrimSuffix(TrimPrefix(ft, "{"), "}");
            && (Underflows(s, 0) ==> GetType(ft, env).Err?)
            && (!Underflows(s, 0) ==>
                  && (forall j :: 0 <= j < |Pieces(s)| ==> |Pieces(s)[j]| <= |ft|)
                  && (|Pieces(s)| > 0 ==> |ft| > 0)
                  && (GetType(ft, env).Ok? <==> RenderFields(Pieces(s), env, |ft|).Ok?))
  {
    var s := TrimSuffix(TrimPrefix(ft, "{"), "}");
    assert |s| <= |ft|;
    var split := Split(s);
    assert split.Ok? ==> split.value == Pieces(s) && forall j :: 0 <= j < |split.value| ==> |split.value[j]| <= |s|;
  }

  /** The `[]` rule: a slice of a basic type is an int-keyed map of it, and a
      slice of anything else has the element's type. */
  lemma SliceRule(t: string, env: TypeEnv)
    requires KvShrinks(env.kv)
    requires "[]" + t !in env.basic
    ensures t in env.basic ==> GetType("[]" + t, env) == Ok("map[int]" + env.basic[t])
    ensures t !in env.basic ==> GetType("[]" + t, env) == GetType(t, env)
  {
    assert HasPrefix("[]" + t, "[]");
    assert TrimPrefix("[]" + t, "[]") == t;
  }

  /** A struct type fails exactly when its body has an unmatched `}` or one of its field types fails. */
  lemma StructFailure(ft: string, env: TypeEnv)
    requires KvShrinks(env.kv)
    requires ft !in env.basic && !HasPrefix(ft, "[]")
    ensures Underflows(TrimSuffix(TrimPrefix(ft, "{"), "}"), 0) ==> GetType(ft, env).Err?
    ensures GetType(ft, env).Ok? ==>
              var s := TrimSuffix(TrimPrefix(ft, "{"), "}");
              Concat(Split(s).value) == DropTopCommas(s, 0)
  {
  }

  /** A nested struct followed by a comma leaves an empty field behind: the
      `}` closing the nested struct ends the field, and the comma then closes
      another, empty one. */
  lemma EmptyFieldAfterNestedStruct()
    ensures Split("{a},b") == Ok(["{a}", "", "b"])
  {
    var s := "{a},b";
    assert |s| == 5 && s[0] == '{' && s[1] == 'a' && s[2] == '}' && s[3] == ',' && s[4] == 'b';
    assert ["{a}", ""] + ["b"] == ["{a}", "", "b"];
    assert ["{a}"] + [""] == ["{a}", ""];
    assert [] + ["{a}"] == ["{a}"];
    assert ['{'] + ['a'] == "{a" && "{a" + ['}'] == "{a}";
    assert [] + ['b'] == "b" && [] + ['{'] == "{";
    assert SplitFrom(s, 5, 0, "b", ["{a}", ""]) == Ok(["{a}", "", "b"]);
    assert SplitFrom(s, 4, 0, "", ["{a}", ""]) == Ok(["{a}", "", "b"]);
    assert SplitFrom(s, 3, 0, "", ["{a}"]) == Ok(["{a}", "", "b"]);
    assert SplitFrom(s, 2, 1, "{a", []) == Ok(["{a}", "", "b"]);
    assert SplitFrom(s, 1, 1, "{", []) == Ok(["{a}", "", "b"]);
    assert SplitFrom(s, 0, 0, [], []) == Ok(["{a}", "", "b"]);
  }
}
