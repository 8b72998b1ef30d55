/** The parts of Go's `strings` and `fmt` packages the config compiler leans
    on, as pure functions over `seq<char>`: `TrimSpace`, `HasPrefix`,
    `TrimPrefix`, `TrimSuffix`, and `Sprintf` restricted to formats whose
    only verb is `%s`. */
module GoText {

  /** `unicode.IsSpace`: the Latin-1 spaces plus the other White_Space code points. */
  predicate IsSpace(c: char)
  {
    || c in {'\t', '\n', '\U{0B}', '\U{0C}', '\r', ' ', '\U{85}', '\U{A0}', '\U{1680}'}
    || ('\U{2000}' <= c <= '\U{200A}')
    || c in {'\U{2028}', '\U{2029}', '\U{202F}', '\U{205F}', '\U{3000}'}
  }

  function TrimLeft(s: string): (r: string)
    ensures |r| <= |s| && r == s[|s| - |r|..]
    ensures forall i :: 0 <= i < |s| - |r| ==> IsSpace(s[i])
    ensures |r| > 0 ==> !IsSpace(r[0])
  {
    if |s| > 0 && IsSpace(s[0]) then TrimLeft(s[1..]) else s
  }

  function TrimRight(s: string): (r: string)
    ensures |r| <= |s| && r == s[..|r|]
    ensures forall i :: |r| <= i < |s| ==> IsSpace(s[i])
    ensures |r| > 0 ==> !IsSpace(r[|r| - 1])
  {
    if |s| > 0 && IsSpace(s[|s| - 1]) then TrimRight(s[..|s| - 1]) else s
  }

  /** `r` is the part of `s` that starts at `a` and has only spaces around it. */
  ghost predicate TrimmedAt(s: string, r: string, a: int)
  {
    && 0 <= a <= |s| - |r| && r == s[a..a + |r|]
    && (forall i :: 0 <= i < a ==> IsSpace(s[i]))
    && (forall i :: a + |r| <= i < |s| ==> IsSpace(s[i]))
  }

  /** `strings.TrimSpace`: the infix of `s` left after dropping leading and
      trailing spaces; it is empty exactly when `s` is all spaces. */
  function TrimSpace(s: string): (r: string)
    ensures |r| <= |s|
    ensures exists a :: TrimmedAt(s, r, a)
    ensures |r| > 0 ==> !IsSpace(r[0]) && !IsSpace(r[|r| - 1])
    ensures (forall i :: 0 <= i < |s| ==> IsSpace(s[i])) <==> r == []
  {
    var l := TrimLeft(s);
    var r := TrimRight(l);
    TrimmedInfix(s, l, r);
    r
  }

  lemma TrimmedInfix(s: string, l: string, r: string)
    requires |l| <= |s| && l == s[|s| - |l|..]
    requires forall i :: 0 <= i < |s| - |l| ==> IsSpace(s[i])
    requires |r| <= |l| && r == l[..|r|]
    requires forall i :: |r| <= i < |l| ==> IsSpace(l[i])
    ensures TrimmedAt(s, r, |s| - |l|)
  {
    PrefixOfSuffix(s, l, r);
    SpacesAfter(s, l, r);
  }

  lemma SpacesAfter(s: string, l: string, r: string)
    requires |l| <= |s| && l == s[|s| - |l|..]
    requires |r| <= |l| && forall i :: |r| <= i < |l| ==> IsSpace(l[i])
    ensures forall i :: |s| - |l| + |r| <= i < |s| ==> IsSpace(s[i])
  {
    var a := |s| - |l|;
    forall i | a + |r| <= i < |s| ensures IsSpace(s[i]) {
      assert s[i] == l[i - a];
    }
  }

  lemma PrefixOfSuffix<T>(s: seq<T>, l: seq<T>, r: seq<T>)
    requires |l| <= |s| && l == s[|s| - |l|..]
    requires |r| <= |l| && r == l[..|r|]
    ensures r == s[|s| - |l|..|s| - |l| + |r|]
  {
  }

  predicate HasPrefix(s: string, prefix: string)
  {
    |prefix| <= |s| && s[..|prefix|] == prefix
  }

  predicate HasSuffix(s: string, suffix: string)
  {
    |suffix| <= |s| && s[|s| - |suffix|..] == suffix
  }

  /** `strings.TrimPrefix`: `s` without `prefix` when it starts with it, `s` otherwise. */
  function TrimPrefix(s: string, prefix: string): (r: string)
    ensures HasPrefix(s, prefix) ==> prefix + r == s
    ensures !HasPrefix(s, prefix) ==> r == s
  {
    if HasPrefix(s, prefix) then s[|prefix|..] else s
  }

  /** `strings.TrimSuffix`: `s` without `suffix` when it ends with it, `s` otherwise. */
  function TrimSuffix(s: string, suffix: string): (r: string)
    ensures HasSuffix(s, suffix) ==> r + suffix == s
    ensures !HasSuffix(s, suffix) ==> r == s
  {
    if HasSuffix(s, suffix) then s[..|s| - |suffix|] else s
  }

  /** A format whose every `%` opens a `%s` verb: the formats this model interprets. */
  predicate VerbsOnly(f: string)
  {
    forall i :: 0 <= i < |f| && f[i] == '%' ==> i + 1 < |f| && f[i + 1] == 's'
  }

  /** The number of `%s` verbs of a format. */
  function Verbs(f: string): nat
  {
    if |f| == 0 then 0 else (if f[0] == '%' then 1 else 0) + Verbs(f[1..])
  }

  /** What Go appends for arguments no verb consumed. */
  function Extra(args: seq<string>): string
  {
    if |args| == 0 then "" else "%!(EXTRA " + ExtraList(args) + ")"
  }

  function ExtraList(args: seq<string>): string
    requires |args| > 0
  {
    if |args| == 1 then "string=" + args[0] else "string=" + args[0] + ", " + ExtraList(args[1..])
  }

  /** `fmt.Sprintf(f, args...)` with string arguments: each `%s` takes the next
      argument or prints `%!s(MISSING)`, and leftover arguments are listed at
      the end. */
  function Format(f: string, args: seq<string>): string
    requires VerbsOnly(f)
  {
    if |f| == 0 then Extra(args)
    else if f[0] == '%' then
      assert VerbsOnly(f[2..]) by {
        assert forall i :: 0 <= i < |f[2..]| ==> f[2..][i] == f[i + 2];
      }
      if |args| > 0 then args[0] + Format(f[2..], args[1..])
      else "%!s(MISSING)" + Format(f[2..], [])
    else
      assert VerbsOnly(f[1..]) by {
        assert forall i :: 0 <= i < |f[1..]| ==> f[1..][i] == f[i + 1];
      }
      [f[0]] + Format(f[1..], args)
  }

  /** Text without `%` is copied through unchanged. */
  lemma FormatLiteral(lit: string, rest: string, args: seq<string>)
    requires '%' !in lit && VerbsOnly(rest)
    ensures VerbsOnly(lit + rest)
    ensures Format(lit + rest, args) == lit + Format(rest, args)
  {
    NoVerbs(lit);
    VerbsOnlyConcat(lit, rest);
    FormatLiteralCopies(lit, rest, args);
  }

  lemma {:induction false} FormatLiteralCopies(lit: string, rest: string, args: seq<string>)
    requires '%' !in lit && VerbsOnly(rest) && VerbsOnly(lit + rest)
    ensures Format(lit + rest, args) == lit + Format(rest, args)
  {
    if |lit| > 0 {
      var f := lit + rest;
      assert f[1..] == lit[1..] + rest;
      assert f[0] == lit[0];
      assert VerbsOnly(f[1..]) by {
        assert forall i :: 0 <= i < |f[1..]| ==> f[1..][i] == f[i + 1];
      }
      FormatLiteralCopies(lit[1..], rest, args);
    } else {
      assert lit + rest == rest;
    }
  }

  /** A `%s` consumes the next argument. */
  lemma FormatVerb(rest: string, a: string, args: seq<string>)
    requires VerbsOnly(rest)
    ensures VerbsOnly("%s" + rest)
    ensures Format("%s" + rest, [a] + args) == a + Format(rest, args)
  {
    VerbsOnlyConcat("%s", rest);
    assert ("%s" + rest)[2..] == rest;
    assert ([a] + args)[1..] == args;
  }

  lemma {:induction false} VerbsOnlyConcat(a: string, b: string)
    requires VerbsOnly(a) && VerbsOnly(b)
    ensures VerbsOnly(a + b)
    ensures Verbs(a + b) == Verbs(a) + Verbs(b)
  {
    if |a| > 0 {
      assert (a + b)[1..] == a[1..] + b;
      assert VerbsOnly(a[1..]) by {
        assert forall i :: 0 <= i < |a[1..]| ==> a[1..][i] == a[i + 1];
      }
      VerbsOnlyConcat(a[1..], b);
      forall i | 0 <= i < |a + b| && (a + b)[i] == '%'
        ensures i + 1 < |a + b| && (a + b)[i + 1] == 's'
      {
        if i > 0 {
          assert (a + b)[i] == (a[1..] + b)[i - 1];
        }
      }
    } else {
      assert a + b == b;
    }
  }

  /** The verbs a format gains from its arguments. */
  function ArgVerbs(args: seq<string>): nat
  {
    if |args| == 0 then 0 else Verbs(args[0]) + ArgVerbs(args[1..])
  }

  /** Formatting with one argument per verb, each argument a format itself,
      yields a format whose verbs are exactly the arguments' verbs. */
  lemma {:induction false} FormatShape(f: string, args: seq<string>)
    requires VerbsOnly(f) && Verbs(f) == |args|
    requires forall j :: 0 <= j < |args| ==> VerbsOnly(args[j])
    ensures VerbsOnly(Format(f, args)) && Verbs(Format(f, args)) == ArgVerbs(args)
    decreases |f|
  {
    if |f| > 0 && f[0] == '%' {
      assert VerbsOnly(f[2..]) by {
        assert forall i :: 0 <= i < |f[2..]| ==> f[2..][i] == f[i + 2];
      }
      assert Verbs(f[1..]) == Verbs(f[2..]);
      FormatShape(f[2..], args[1..]);
      VerbsOnlyConcat(args[0], Format(f[2..], args[1..]));
    } else if |f| > 0 {
      assert VerbsOnly(f[1..]) by {
        assert forall i :: 0 <= i < |f[1..]| ==> f[1..][i] == f[i + 1];
      }
      FormatShape(f[1..], args);
      VerbsOnlyConcat([f[0]], Format(f[1..], args));
      assert [f[0]][1..] == [];
    }
  }

  /** Text without `%` is a format with no verbs. */
  lemma {:induction false} NoVerbs(t: string)
    requires '%' !in t
    ensures VerbsOnly(t) && Verbs(t) == 0
  {
    if |t| > 0 {
      NoVerbs(t[1..]);
    }
  }
}
