/** Laws of the normal form that do not speak of stacks or cursors: what an empty field, "." and ".."
    do wherever they stand. Together with what normalisation leaves alone they determine it. */
module PathLaws {
  import opened Paths

  /** The rest of a path behind a field. */
  predicate Tail(q: string)
  {
    q == "" || q[0] == '/'
  }

  /** What is left when a field between `p` and `q` is taken out; of nothing, the root is left. */
  function Without(p: string, q: string): string
  {
    if p + q == "" then "/" else p + q
  }

  // ---------------------------------------------------------------- the laws

  predicate EmptyFieldGoes(norm: string -> string, p: string, q: string)
  {
    Tail(q) ==> norm(p + "/" + q) == norm(Without(p, q))
  }

  predicate SelfGoes(norm: string -> string, p: string, q: string)
  {
    Tail(q) ==> norm(p + "/." + q) == norm(Without(p, q))
  }

  /** ".." takes the name in front of it along. */
  predicate ParentGoes(norm: string -> string, p: string, name: string, q: string)
  {
    Proper(name) && Tail(q) ==> norm(p + "/" + name + "/.." + q) == norm(Without(p, q))
  }

  /** Behind the first field, which is empty in an absolute path, ".." leaves the root. */
  predicate ParentStops(norm: string -> string, first: string, q: string)
  {
    '/' !in first && Tail(q) ==> norm(first + "/.." + q) == norm(Without("", q))
  }

  ghost predicate Lawful(norm: string -> string)
  {
    && (forall p, q :: EmptyFieldGoes(norm, p, q))
    && (forall p, q :: SelfGoes(norm, p, q))
    && (forall p, name, q :: ParentGoes(norm, p, name, q))
    && (forall first, q :: ParentStops(norm, first, q))
    && (forall s | IsNormal(s) :: norm(s) == s)
  }

  // ---------------------------------------------------------------- normalisation obeys them

  function TailFields(q: string): (fields: seq<string>)
    requires Tail(q)
    ensures forall i | 0 <= i < |fields| :: '/' !in fields[i]
  {
    if q == "" then [] else Split(q[1..])
  }

  lemma SplitTail(p: string, q: string)
    requires Tail(q)
    ensures Split(p + q) == Split(p) + TailFields(q)
  {
    if q == "" {
      assert p + q == p;
    } else {
      assert p + q == p + "/" + q[1..];
      SplitConcat(p, q[1..]);
    }
  }

  lemma {:induction false} WalkConcat(st: Stack, a: seq<string>, b: seq<string>)
    ensures Walk(st, a + b) == Walk(Walk(st, a), b)
    decreases |a|
  {
    if a == [] {
      assert a + b == b;
    } else {
      assert (a + b)[0] == a[0] && (a + b)[1..] == a[1..] + b;
      WalkConcat(Enter(st, a[0]), a[1..], b);
    }
  }

  lemma ResolveTail(p: string, q: string)
    requires Tail(q)
    ensures Resolve(p + q) == Walk(Resolve(p), TailFields(q))
  {
    SplitTail(p, q);
    assert (Split(p) + TailFields(q))[1..] == Split(p)[1..] + TailFields(q);
    WalkConcat(Start(Split(p)[0]), Split(p)[1..], TailFields(q));
  }

  lemma ResolveField(p: string, f: string)
    requires '/' !in f
    ensures Resolve(p + "/" + f) == Enter(Resolve(p), f)
  {
    SplitCons(f, "");
    assert ("/" + f)[1..] == f;
    ResolveTail(p, "/" + f);
    assert p + ("/" + f) == p + "/" + f;
    assert Walk(Resolve(p), [f]) == Walk(Enter(Resolve(p), f), [f][1..]);
  }

  /** Taking a field out leaves the stack in front of it. */
  lemma ResolveWithout(p: string, q: string)
    requires Tail(q)
    ensures Resolve(Without(p, q)) == Walk(Resolve(p), TailFields(q))
    ensures Without(p, q) != ""
  {
    if p + q == "" {
      ResolveField("", "");
      assert "" + "/" + "" == "/";
      SplitCons("", "");
    } else {
      ResolveTail(p, q);
    }
  }

  /** Whatever stands between `p` and `q`, if the stack is the same behind it. */
  lemma FieldsGo(p: string, mid: string, q: string)
    requires Tail(q) && p + mid != "" && Resolve(p + mid) == Resolve(p)
    ensures Normalized(p + mid + q) == Normalized(Without(p, q))
  {
    ResolveTail(p + mid, q);
    ResolveWithout(p, q);
  }

  /** An empty field or "." goes, wherever it stands. */
  lemma NothingChanges(p: string, f: string, q: string)
    requires (f == "" || f == ".") && Tail(q)
    ensures Normalized(p + "/" + f + q) == Normalized(Without(p, q))
  {
    ResolveField(p, f);
    assert p + ("/" + f) == p + "/" + f;
    FieldsGo(p, "/" + f, q);
  }

  /** A proper name and ".." behind it go. */
  lemma NameGoes(p: string, name: string, q: string)
    requires Proper(name) && Tail(q)
    ensures Normalized(p + "/" + name + "/.." + q) == Normalized(Without(p, q))
  {
    ParentUndoes(p, name);
    assert p + ("/" + name + "/..") == p + "/" + name + "/..";
    FieldsGo(p, "/" + name + "/..", q);
  }

  lemma ParentUndoes(p: string, name: string)
    requires Proper(name)
    ensures Resolve(p + ("/" + name + "/..")) == Resolve(p)
  {
    var st := Resolve(p);
    ResolveWellFormed(p);
    ResolveField(p, name);
    ResolveField(p + "/" + name, "..");
    assert p + "/" + name + "/" + ".." == p + ("/" + name + "/..");
    var st' := Enter(st, name);
    assert st'.names[..|st'.names| - 1] == st.names;
  }

  lemma ParentOfFirst(first: string, q: string)
    requires '/' !in first && Tail(q)
    ensures Normalized(first + "/.." + q) == Normalized(Without("", q))
  {
    SplitCons(first, "");
    assert Resolve(first) == Start(first);
    ResolveField(first, "..");
    assert first + "/" + ".." == first + "/..";
    ResolveTail(first + "/..", q);
    SplitCons("", "");
    assert Resolve("") == ROOT;
    ResolveWithout("", q);
  }

  // ---------------------------------------------------------------- and is determined by them

  /** The normal form obeys the laws, for all paths, absolute and relative. */
  lemma NormalizedIsLawful()
    ensures Lawful(Normalized)
  {
    forall p, q ensures EmptyFieldGoes(Normalized, p, q) {
      if Tail(q) {
        NothingChanges(p, "", q);
        assert p + "/" + "" == p + "/";
      }
    }
    forall p, q ensures SelfGoes(Normalized, p, q) {
      if Tail(q) {
        NothingChanges(p, ".", q);
        assert p + "/" + "." == p + "/.";
      }
    }
    forall p, name, q ensures ParentGoes(Normalized, p, name, q) {
      if Proper(name) && Tail(q) {
        NameGoes(p, name, q);
      }
    }
    forall first, q ensures ParentStops(Normalized, first, q) {
      if '/' !in first && Tail(q) {
        ParentOfFirst(first, q);
      }
    }
    forall s | IsNormal(s) ensures Normalized(s) == s {
      NormalizedFixedPoint(s);
    }
  }

  /** The path in front of field `i`, and behind it. */
  lemma CutAt(s: string, i: nat) returns (p: string, q: string)
    requires 1 <= i < |Split(s)|
    ensures p == Join(Split(s)[..i]) && Tail(q) && s == p + "/" + Split(s)[i] + q
    ensures i == 1 ==> p == Split(s)[0]
  {
    var fs := Split(s);
    JoinSplit(s);
    p := Join(fs[..i]);
    assert fs == fs[..i] + fs[i..];
    JoinConcat(fs[..i], fs[i..]);
    if i + 1 == |fs| {
      q := "";
      assert fs[i..] == [fs[i]];
    } else {
      q := "/" + Join(fs[i + 1..]);
      assert fs[i..] == [fs[i]] + fs[i + 1..];
      JoinConcat([fs[i]], fs[i + 1..]);
    }
  }

  /** The first field that does not stand for itself. */
  lemma {:induction false} FirstImproper(fs: seq<string>, from: nat) returns (i: nat)
    requires 1 <= from && exists k :: from <= k < |fs| && !Proper(fs[k])
    ensures from <= i < |fs| && !Proper(fs[i]) && forall k | from <= k < i :: Proper(fs[k])
    decreases |fs| - from
  {
    if !Proper(fs[from]) {
      i := from;
    } else {
      i := FirstImproper(fs, from + 1);
    }
  }

  /** Every lawful function has the same value for both. */
  ghost predicate Alike(s: string, t: string)
  {
    forall norm: string -> string | Lawful(norm) :: norm(s) == norm(t)
  }

  lemma DroppedAlike(s: string, p: string, f: string, q: string)
    requires (f == "" || f == ".") && Tail(q) && s == p + "/" + f + q && s != "/"
    ensures Alike(s, Without(p, q)) && |Without(p, q)| < |s|
  {
    forall norm: string -> string | Lawful(norm) ensures norm(s) == norm(Without(p, q)) {
      if f == "" {
        assert EmptyFieldGoes(norm, p, q);
        assert p + "/" + f == p + "/";
      } else {
        assert SelfGoes(norm, p, q);
        assert p + "/" + f == p + "/.";
      }
    }
  }

  lemma PoppedAlike(s: string, p: string, name: string, q: string)
    requires Proper(name) && Tail(q) && s == p + "/" + name + "/" + ".." + q
    ensures Alike(s, Without(p, q)) && |Without(p, q)| < |s|
  {
    assert p + "/" + name + "/" + ".." == p + "/" + name + "/..";
    forall norm: string -> string | Lawful(norm) ensures norm(s) == norm(Without(p, q)) {
      assert ParentGoes(norm, p, name, q);
    }
  }

  lemma StoppedAlike(s: string, first: string, q: string)
    requires '/' !in first && Tail(q) && s == first + "/" + ".." + q
    ensures Alike(s, Without("", q)) && |Without("", q)| < |s|
  {
    assert first + "/" + ".." == first + "/..";
    forall norm: string -> string | Lawful(norm) ensures norm(s) == norm(Without("", q)) {
      assert ParentStops(norm, first, q);
    }
  }

  /** What stands in front of field `i - 1`. */
  lemma NameAbove(fs: seq<string>, i: nat) returns (above: string)
    requires 2 <= i <= |fs|
    ensures Join(fs[..i]) == above + "/" + fs[i - 1]
  {
    above := Join(fs[..i - 1]);
    assert fs[..i] == fs[..i - 1] + [fs[i - 1]];
    JoinSnoc(fs[..i - 1], fs[i - 1]);
  }

  /** One application of a law gives a shorter path. */
  lemma Shorter(s: string) returns (t: string)
    requires !IsNormal(s)
    ensures |t| < |s| && Alike(s, t)
  {
    var fs := Split(s);
    var i := FirstImproper(fs, 1);
    var p, q := CutAt(s, i);
    if fs[i] == "" || fs[i] == "." {
      t := Without(p, q);
      DroppedAlike(s, p, fs[i], q);
    } else if i == 1 {
      t := Without("", q);
      StoppedAlike(s, p, q);
    } else {
      var above := NameAbove(fs, i);
      t := Without(above, q);
      PoppedAlike(s, above, fs[i - 1], q);
    }
  }

  /** The laws leave no choice: normalisation is the only function that obeys them and leaves normal
      forms alone. */
  lemma {:induction false} LawsDetermine(norm: string -> string, s: string)
    requires Lawful(norm)
    ensures norm(s) == Normalized(s)
    decreases |s|
  {
    if IsNormal(s) {
      NormalizedFixedPoint(s);
    } else {
      var t := Shorter(s);
      LawsDetermine(norm, t);
      NormalizedIsLawful();
      assert Alike(s, t);
    }
  }
}
