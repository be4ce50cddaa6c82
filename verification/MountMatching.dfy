/** How a path is matched against a mount point: the source compares characters, and this
    file shows what that means for the components of the two. */
module MountMatching {
  import opened Wrappers
  import opened Paths

  /** `strstr`: where `needle` first occurs in `hay`. */
  function StrStr(hay: string, needle: string): (at: Option<nat>)
  {
    if needle <= hay then Some(0)
    else if hay == "" then None
    else
      var rest := StrStr(hay[1..], needle);
      if rest.Some? then Some(rest.value + 1) else None
  }

  /** The boundary test both search functions of the source share. The character behind the
      prefix is the NUL when the path ends there. */
  predicate Matches(path: string, prefix: string)
  {
    && StrStr(path, prefix) == Some(0)
    && ((|prefix| < |path| && path[|prefix|] == '/') || |prefix| == 1)
  }

  /** The part of the path handed to the device. */
  function DevicePath(path: string, prefix: string): string
    requires Matches(path, prefix)
  {
    if |prefix| == 1 then path else path[|prefix|..]
  }

  // ---------------------------------------------------------------- fields of a matched path

  /** An absolute normal form other than the root: its components are its fields. */
  lemma NormalComponents(s: string)
    requires IsNormal(s) && IsAbsolute(s)
    ensures s == "/" + Join(Components(s))
    ensures Components(s) == [] <==> s == "/"
    ensures s != "/" ==> Split(s) == [""] + Components(s)
    ensures forall i | 0 <= i < |Components(s)| :: Proper(Components(s)[i])
  {
    NormalizedFixedPoint(s);
    NormalizedAbsolute(s);
    var names := Components(s);
    if names != [] {
      SplitAbsolute(Join(names));
      SplitJoin(names);
      assert names[0] != "";
      assert |Join(names)| > 0;
    }
  }

  /** An absolute string whose fields behind the first are proper. */
  lemma ProperFieldsAreComponents(s: string, names: seq<string>)
    requires Split(s) == [""] + names && names != []
    requires forall i | 0 <= i < |names| :: Proper(names[i])
    ensures IsAbsolute(s) && IsNormal(s) && Components(s) == names
  {
    JoinSplit(s);
    assert s == "" + "/" + Join(names);
    assert Split(s)[1..] == names;
    WalkProper(ROOT, names);
    assert ROOT.names + names == names;
  }

  /** The fields of a path matched by a prefix that is not a single character. */
  lemma MatchedFields(path: string, prefix: string)
    requires Matches(path, prefix) && |prefix| != 1
    ensures path[|prefix|..] == "/" + path[|prefix| + 1..]
    ensures prefix + path[|prefix|..] == path
    ensures Split(path) == Split(prefix) + Split(path[|prefix| + 1..])
  {
    assert path == prefix + "/" + path[|prefix| + 1..];
    SplitConcat(prefix, path[|prefix| + 1..]);
  }

  // ---------------------------------------------------------------- the main results

  /** What the character test means on any two strings: the fields of the mount point are a proper
      prefix of the path's. Only for a single character the boundary is not looked at. */
  lemma MatchesIsFieldPrefix(path: string, prefix: string)
    ensures |prefix| != 1 ==> (Matches(path, prefix) <==> Split(prefix) < Split(path))
    ensures |prefix| == 1 ==> (Matches(path, prefix) <==> prefix <= path)
  {
    if Matches(path, prefix) && |prefix| != 1 {
      MatchedFields(path, prefix);
    }
    if Split(prefix) < Split(path) && |prefix| != 1 {
      var n := |Split(prefix)|;
      JoinSplit(path);
      JoinSplit(prefix);
      assert Split(path) == Split(prefix) + Split(path)[n..];
      JoinConcat(Split(prefix), Split(path)[n..]);
      assert path == prefix + "/" + Join(Split(path)[n..]);
    }
  }

  /** The mount point stands above the absolute path: it is the root, which may be spelled "" too,
      or an absolute normal form whose names are a proper prefix of the path's. */
  predicate Above(prefix: string, path: string)
    requires IsAbsolute(path)
  {
    prefix == "" || (IsNormal(prefix) && IsAbsolute(prefix)
                     && (prefix == "/" || Components(prefix) < Components(path)))
  }

  /** On normalised paths the character test is the component test, for every mount point: one
      that is no absolute normal form takes part for no path at all, except "". */
  lemma MatchesIsComponentPrefix(path: string, prefix: string)
    requires IsNormal(path) && IsAbsolute(path)
    ensures Matches(path, prefix) <==> Above(prefix, path)
  {
    if Matches(path, prefix) && prefix != "" {
      MatchedPrefixIsNormal(path, prefix);
      assert path[0] == prefix[0];
      if prefix != "/" {
        DevicePathIsRemainder(path, prefix);
      }
    }
    if prefix == "/" || prefix == "" {
      assert prefix <= path;
    }
    if Above(prefix, path) && prefix != "/" && prefix != "" {
      NormalComponents(path);
      NormalComponents(prefix);
      JoinedPrefixMatches(Components(prefix), Components(path));
    }
  }

  lemma JoinedPrefixMatches(a: seq<string>, c: seq<string>)
    requires a < c && a != []
    ensures Matches("/" + Join(c), "/" + Join(a))
  {
    JoinConcat(a, c[|a|..]);
    assert a + c[|a|..] == c;
    assert "/" + Join(c) == "/" + Join(a) + ("/" + Join(c[|a|..]));
  }

  /** The names a matching mount point stands for. */
  function PointNames(prefix: string): seq<string>
    requires prefix == "" || IsAbsolute(prefix)
  {
    if prefix == "" then [] else Components(prefix)
  }

  /** What is left for the device: prefix and device path make up the path again, and the
      device path is an absolute normal form holding exactly the components below the mount.
      In particular no "." or ".." ever reaches a device. */
  lemma DevicePathIsRemainder(path: string, prefix: string)
    requires IsNormal(path) && IsAbsolute(path) && Matches(path, prefix)
    ensures prefix == "" || IsAbsolute(prefix)
    ensures IsAbsolute(DevicePath(path, prefix)) && IsNormal(DevicePath(path, prefix))
    ensures Components(path) == PointNames(prefix) + Components(DevicePath(path, prefix))
    ensures prefix != "/" ==> prefix + DevicePath(path, prefix) == path
    ensures prefix == "/" ==> DevicePath(path, prefix) == path
    ensures |prefix| > 1 ==> Components(prefix) < Components(path)
  {
    if prefix == "" {
      assert path[0..] == path;
    } else {
      MatchedPrefixIsNormal(path, prefix);
      assert path[0] == prefix[0];
      NormalComponents(prefix);
      if prefix == "/" {
        assert Components(prefix) + Components(path) == Components(path);
      } else {
        MatchedFields(path, prefix);
        NormalComponents(path);
        var rest := path[|prefix| + 1..];
        SplitAbsolute(rest);
        RemainderIsNormal(DevicePath(path, prefix), Components(prefix), Components(path), Split(rest));
      }
    }
  }

  lemma RemainderIsNormal(dp: string, above: seq<string>, all: seq<string>, below: seq<string>)
    requires Split(dp) == [""] + below && below != []
    requires [""] + all == [""] + above + below
    requires forall i | 0 <= i < |all| :: Proper(all[i])
    ensures IsAbsolute(dp) && IsNormal(dp)
    ensures all == above + Components(dp) && above < all
  {
    assert all == ([""] + all)[1..];
    assert above + below == ([""] + above + below)[1..];
    forall i | 0 <= i < |below| ensures Proper(below[i]) {
      assert below[i] == all[|above| + i];
    }
    ProperFieldsAreComponents(dp, below);
  }

  /** Mount points are stored as given, not normalised. One that is not in normal form is
      dead: some normalised path matches a mount point if and only if it is a normal form. */
  lemma ReachableMountPoints(prefix: string)
    ensures (exists path :: IsNormal(path) && Matches(path, prefix)) <==> IsNormal(prefix)
  {
    forall path | IsNormal(path) && Matches(path, prefix) ensures IsNormal(prefix) {
      MatchedPrefixIsNormal(path, prefix);
    }
    if IsNormal(prefix) {
      var path := if |prefix| == 1 then prefix else prefix + "/x";
      if |prefix| != 1 {
        ExtendNormal(prefix);
      }
      assert path[|prefix|..] == "/x" || |prefix| == 1;
      assert IsNormal(path) && Matches(path, prefix);
    }
  }

  lemma MatchedPrefixIsNormal(path: string, prefix: string)
    requires IsNormal(path) && Matches(path, prefix)
    ensures IsNormal(prefix)
  {
    if |prefix| == 1 && prefix != "/" {
      SplitCons(prefix, "");
    } else if |prefix| > 1 {
      MatchedFields(path, prefix);
      assert forall i | 0 <= i < |Split(prefix)| :: Split(prefix)[i] == Split(path)[i];
    }
  }

  lemma ExtendNormal(prefix: string)
    requires IsNormal(prefix) && |prefix| != 1
    ensures IsNormal(prefix + "/x")
  {
    SplitConcat(prefix, "x");
    SplitCons("x", "");
    assert prefix + "/" + "x" == prefix + "/x";
    if prefix == "" {
      SplitCons("", "");
    }
  }

  /** A corollary of NormalizedCanonical: two spellings of one location are matched alike and reach
      the device alike, whatever the mount point. */
  lemma SpellingDoesNotMatter(p: string, q: string, prefix: string)
    requires IsAbsolute(p) && IsAbsolute(q)
    requires Components(p) == Components(q)
    ensures Matches(Normalized(p), prefix) == Matches(Normalized(q), prefix)
    ensures Matches(Normalized(p), prefix) ==>
              DevicePath(Normalized(p), prefix) == DevicePath(Normalized(q), prefix)
  {
    NormalizedCanonical(p, q);
  }
}
