/** What a path means, independently of how `normalizePath` computes it: split on '/',
    keep a stack of names, write the stack back. Nothing here follows the source's loop. */
module Paths {

  // ---------------------------------------------------------------- split and join

  /** Length of the longest slash-free prefix. */
  function FieldLen(s: string): (k: nat)
    ensures k <= |s|
    ensures '/' !in s[..k]
    ensures k < |s| ==> s[k] == '/'
  {
    if s == "" || s[0] == '/' then 0
    else
      var k := 1 + FieldLen(s[1..]);
      assert s[..k] == [s[0]] + s[1..][..k - 1];
      k
  }

  /** The fields of `s` between its slashes; always at least one. */
  function Split(s: string): (fields: seq<string>)
    ensures |fields| >= 1
    ensures forall i | 0 <= i < |fields| :: '/' !in fields[i]
    decreases |s|
  {
    var k := FieldLen(s);
    if k == |s| then [s] else [s[..k]] + Split(s[k + 1..])
  }

  function Join(names: seq<string>): string
  {
    if names == [] then ""
    else if |names| == 1 then names[0]
    else names[0] + "/" + Join(names[1..])
  }

  lemma {:induction false} JoinSnoc(names: seq<string>, f: string)
    requires names != []
    ensures Join(names + [f]) == Join(names) + "/" + f
  {
    if |names| == 1 {
      assert (names + [f])[1..] == [f];
    } else {
      JoinSnoc(names[1..], f);
      assert (names + [f])[1..] == names[1..] + [f];
      calc {
        Join(names + [f]);
        names[0] + "/" + Join(names[1..] + [f]);
        names[0] + "/" + (Join(names[1..]) + "/" + f);
        (names[0] + "/" + Join(names[1..])) + "/" + f;
        Join(names) + "/" + f;
      }
    }
  }

  /** A slash-free field in front of a slash is exactly the first field. */
  lemma {:induction false} FieldLenAt(f: string, rest: string)
    requires '/' !in f
    requires rest == "" || rest[0] == '/'
    ensures FieldLen(f + rest) == |f|
  {
    if f == "" {
      assert f + rest == rest;
    } else {
      FieldLenAt(f[1..], rest);
      assert (f + rest)[1..] == f[1..] + rest;
    }
  }

  lemma {:induction false} SplitCons(f: string, rest: string)
    requires '/' !in f
    ensures Split(f) == [f]
    ensures Split(f + "/" + rest) == [f] + Split(rest)
  {
    FieldLenAt(f, "");
    assert f + "" == f;
    FieldLenAt(f, "/" + rest);
    var s := f + "/" + rest;
    assert s == f + ("/" + rest);
    assert s[|f| + 1..] == rest;
    assert s[..|f|] == f;
  }

  /** Splitting inverts joining on slash-free names. */
  lemma {:induction false} SplitJoin(names: seq<string>)
    requires names != []
    requires forall i | 0 <= i < |names| :: '/' !in names[i]
    ensures Split(Join(names)) == names
  {
    if |names| == 1 {
      SplitCons(names[0], "");
    } else {
      SplitJoin(names[1..]);
      SplitCons(names[0], Join(names[1..]));
    }
  }

  /** A string that has a slash, cut at the first one. */
  lemma CutFirst(s: string) returns (f: string, rest: string)
    requires FieldLen(s) < |s|
    ensures s == f + "/" + rest && '/' !in f && Split(s) == [f] + Split(rest)
  {
    var k := FieldLen(s);
    f, rest := s[..k], s[k + 1..];
    assert s == f + "/" + rest;
    SplitCons(f, rest);
  }

  /** Joining inverts splitting on every string. */
  lemma {:induction false} JoinSplit(s: string)
    ensures Join(Split(s)) == s
    decreases |s|
  {
    if FieldLen(s) < |s| {
      var f, rest := CutFirst(s);
      JoinSplit(rest);
      JoinCons(f, Split(rest));
    }
  }

  lemma JoinCons(f: string, names: seq<string>)
    requires names != []
    ensures Join([f] + names) == f + "/" + Join(names)
  {
    assert ([f] + names)[1..] == names;
  }

  lemma {:induction false} SplitConcat(a: string, b: string)
    ensures Split(a + "/" + b) == Split(a) + Split(b)
    decreases |a|
  {
    if FieldLen(a) == |a| {
      assert a[..|a|] == a;
      SplitCons(a, b);
    } else {
      var f, rest := CutFirst(a);
      SplitConcat(rest, b);
      SplitLonger(f, rest, b);
      FieldInFront(f, Split(rest), Split(b));
    }
  }

  lemma FieldInFront(f: string, x: seq<string>, y: seq<string>)
    ensures [f] + (x + y) == [f] + x + y
  {
  }

  lemma SplitLonger(f: string, rest: string, b: string)
    requires '/' !in f
    ensures Split(f + "/" + rest + "/" + b) == [f] + Split(rest + "/" + b)
  {
    assert f + "/" + rest + "/" + b == f + "/" + (rest + "/" + b);
    SplitCons(f, rest + "/" + b);
  }

  lemma {:induction false} JoinConcat(a: seq<string>, b: seq<string>)
    requires a != [] && b != []
    ensures Join(a + b) == Join(a) + "/" + Join(b)
    decreases |a|
  {
    if |a| == 1 {
      assert (a + b)[1..] == b;
    } else {
      JoinConcat(a[1..], b);
      assert (a + b)[1..] == a[1..] + b;
    }
  }

  // ---------------------------------------------------------------- the name stack

  /** A location under construction. A relative stack still holds its first field;
      popping that field leaves the absolute root, as the source does. */
  datatype Stack = Stack(absolute: bool, names: seq<string>)

  const ROOT := Stack(true, [])

  /** A name that stands for itself: not empty, not ".", not "..". */
  predicate Proper(name: string)
  {
    name != "" && name != "." && name != ".." && '/' !in name
  }

  function Enter(st: Stack, field: string): Stack
  {
    if field == "" || field == "." then st
    else if field == ".." then
      if |st.names| <= 1 then ROOT else st.(names := st.names[..|st.names| - 1])
    else st.(names := st.names + [field])
  }

  function Walk(st: Stack, fields: seq<string>): Stack
    decreases |fields|
  {
    if fields == [] then st else Walk(Enter(st, fields[0]), fields[1..])
  }

  /** The first field is special: empty means the path is absolute, anything else is kept. */
  function Start(field: string): Stack
  {
    if field == "" then ROOT else Stack(false, [field])
  }

  function Resolve(s: string): Stack
  {
    Walk(Start(Split(s)[0]), Split(s)[1..])
  }

  function Render(st: Stack): string
  {
    if st.absolute then "/" + Join(st.names) else Join(st.names)
  }

  /** The normal form of a path. */
  function Normalized(s: string): string
  {
    if s == "" then "" else Render(Resolve(s))
  }

  predicate IsAbsolute(s: string)
  {
    s != "" && s[0] == '/'
  }

  /** The names an absolute path descends through. */
  function Components(s: string): (names: seq<string>)
    requires IsAbsolute(s)
  {
    Resolve(s).names
  }

  ghost predicate WellFormed(st: Stack)
  {
    && (st.absolute || st.names != [])
    && (forall i | 0 <= i < |st.names| :: st.names[i] != "" && '/' !in st.names[i])
    && (forall i | 0 <= i < |st.names| :: st.absolute || i > 0 ==> Proper(st.names[i]))
  }

  lemma EnterWellFormed(st: Stack, field: string)
    requires WellFormed(st) && '/' !in field
    ensures WellFormed(Enter(st, field))
    ensures st.absolute ==> Enter(st, field).absolute
  {
  }

  lemma {:induction false} WalkWellFormed(st: Stack, fields: seq<string>)
    requires WellFormed(st)
    requires forall i | 0 <= i < |fields| :: '/' !in fields[i]
    ensures WellFormed(Walk(st, fields))
    ensures st.absolute ==> Walk(st, fields).absolute
    decreases |fields|
  {
    if fields != [] {
      WalkWellFormed(Enter(st, fields[0]), fields[1..]);
    }
  }

  lemma {:induction false} ResolveWellFormed(s: string)
    ensures WellFormed(Resolve(s))
    ensures IsAbsolute(s) ==> Resolve(s).absolute
  {
    WalkWellFormed(Start(Split(s)[0]), Split(s)[1..]);
  }

  /** Walking proper names only pushes them. */
  lemma {:induction false} WalkProper(st: Stack, fields: seq<string>)
    requires forall i | 0 <= i < |fields| :: Proper(fields[i])
    ensures Walk(st, fields) == st.(names := st.names + fields)
    decreases |fields|
  {
    if fields != [] {
      WalkProper(Enter(st, fields[0]), fields[1..]);
      assert st.names + fields == (st.names + [fields[0]]) + fields[1..];
    } else {
      assert st.names + fields == st.names;
    }
  }

  lemma {:induction false} SplitAbsolute(s: string)
    ensures Split("/" + s) == [""] + Split(s)
  {
    SplitCons("", s);
    assert "" + "/" + s == "/" + s;
  }

  /** Resolving what was rendered gives the stack back. */
  lemma {:induction false} ResolveRender(st: Stack)
    requires WellFormed(st)
    ensures Resolve(Render(st)) == st
  {
    if st.absolute {
      SplitAbsolute(Join(st.names));
      if st.names == [] {
        SplitCons("", "");
        assert Split(Render(st))[1..] == [""];
        assert Walk(ROOT, [""]) == Walk(ROOT, [""][1..]);
      } else {
        SplitJoin(st.names);
        assert Split(Render(st))[1..] == st.names;
        WalkProper(ROOT, st.names);
      }
    } else {
      SplitJoin(st.names);
      WalkProper(Start(st.names[0]), st.names[1..]);
      assert st.names == [st.names[0]] + st.names[1..];
    }
  }

  lemma {:induction false} RenderNonEmpty(st: Stack)
    requires WellFormed(st)
    ensures Render(st) != ""
    ensures IsAbsolute(Render(st)) == st.absolute
  {
    if !st.absolute {
      var n := st.names[0];
      assert Join(st.names)[0] == n[0];
    }
  }

  // ---------------------------------------------------------------- normal forms

  /** A normal form, told from its fields alone: empty, the root, or a first field of
      any kind followed by proper names. */
  predicate IsNormal(s: string)
  {
    || s == ""
    || s == "/"
    || forall i | 1 <= i < |Split(s)| :: Proper(Split(s)[i])
  }

  /** Normalising twice is normalising once, for absolute and relative input alike. */
  lemma NormalizedIdempotent(s: string)
    ensures Normalized(Normalized(s)) == Normalized(s)
  {
    if s != "" {
      ResolveWellFormed(s);
      ResolveRender(Resolve(s));
      RenderNonEmpty(Resolve(s));
    }
  }

  /** The fixed points are exactly the normal forms. */
  lemma NormalizedFixedPoint(s: string)
    ensures Normalized(s) == s <==> IsNormal(s)
  {
    if s == "/" {
      SplitAbsolute("");
      SplitCons("", "");
      assert Split(s)[1..] == [""];
      assert Walk(ROOT, [""]) == Walk(ROOT, [""][1..]);
    } else if s != "" {
      var fs := Split(s);
      JoinSplit(s);
      if IsNormal(s) {
        WalkProper(Start(fs[0]), fs[1..]);
        assert fs == [fs[0]] + fs[1..];
        if fs[0] == "" {
          assert |fs| > 1;
          assert ROOT.names + fs[1..] == fs[1..];
        }
      }
      if Normalized(s) == s {
        RenderedIsNormal(Resolve(s), s);
      }
    }
  }

  lemma RenderedIsNormal(st: Stack, s: string)
    requires st == Resolve(s)
    ensures IsNormal(Render(st))
  {
    ResolveWellFormed(s);
    if st.names != [] {
      SplitJoin(st.names);
      if st.absolute {
        SplitAbsolute(Join(st.names));
      }
    }
  }

  lemma NormalizedIsNormal(s: string)
    ensures IsNormal(Normalized(s))
    ensures IsAbsolute(s) ==> IsAbsolute(Normalized(s))
  {
    if s != "" {
      RenderedIsNormal(Resolve(s), s);
      ResolveWellFormed(s);
    }
  }

  /** For a path starting with '/', the normal form is "/" followed by the join of its
      components, all of them proper names. */
  lemma NormalizedAbsolute(s: string)
    requires IsAbsolute(s)
    ensures Normalized(s) == "/" + Join(Components(s))
    ensures forall i | 0 <= i < |Components(s)| :: Proper(Components(s)[i])
    ensures Components(Normalized(s)) == Components(s)
  {
    ResolveWellFormed(s);
    ResolveRender(Resolve(s));
  }

  /** Two absolute paths have the same normal form exactly when they descend through the
      same names: normalisation neither merges nor separates locations. */
  lemma NormalizedCanonical(s: string, t: string)
    requires IsAbsolute(s) && IsAbsolute(t)
    ensures Normalized(s) == Normalized(t) <==> Components(s) == Components(t)
  {
    NormalizedAbsolute(s);
    NormalizedAbsolute(t);
  }
}
