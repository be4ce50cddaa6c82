/** `FileContext::normalizePath`: the in-place rewrite of a C string, and the proof that it
    computes the normal form of Paths.dfy. */
module PathNormalizer {
  import opened Paths

  // ---------------------------------------------------------------- C strings

  /** `strlen`: the index of the first NUL. */
  function StrLen(s: seq<char>): (n: nat)
    requires '\0' in s
    ensures n < |s| && s[n] == '\0'
    ensures '\0' !in s[..n]
  {
    if s[0] == '\0' then 0
    else
      var n := 1 + StrLen(s[1..]);
      assert s[..n] == [s[0]] + s[1..][..n - 1];
      n
  }

  /** The characters in front of the first NUL. */
  function CString(s: seq<char>): string
    requires '\0' in s
  {
    s[..StrLen(s)]
  }

  lemma {:induction false} StrLenAt(s: seq<char>, n: nat)
    requires n < |s| && s[n] == '\0'
    requires '\0' !in s[..n]
    ensures StrLen(s) == n
  {
    if n > 0 {
      assert s[0] == s[..n][0];
      assert s[1..][..n - 1] == s[..n][1..];
      StrLenAt(s[1..], n - 1);
    }
  }

  // ---------------------------------------------------------------- the rewriting rules

  predicate AtDoubleSlash(rest: string)
  {
    |rest| >= 2 && rest[0] == '/' && rest[1] == '/'
  }

  predicate AtParent(rest: string)
  {
    && |rest| >= 3 && rest[0] == '/' && rest[1] == '.' && rest[2] == '.'
    && (|rest| == 3 || rest[3] == '/')
  }

  predicate AtSelf(rest: string)
  {
    && |rest| >= 2 && rest[0] == '/' && rest[1] == '.'
    && (|rest| == 2 || rest[2] == '/')
  }

  /** Moves the write cursor back over the last name and the slash in front of it. */
  function PopName(out: string): (r: string)
    ensures |r| <= |out|
  {
    if out == "" then ""
    else if out[|out| - 1] == '/' then out[..|out| - 1]
    else PopName(out[..|out| - 1])
  }

  /** What the cursors still produce when `out` is written and `rest` is unread. */
  function Run(out: string, rest: string): string
    decreases |rest|
  {
    if AtDoubleSlash(rest) then Run(out, rest[1..])
    else if AtParent(rest) then Run(PopName(out), rest[3..])
    else if AtSelf(rest) then Run(out, rest[2..])
    else if rest == "" then out
    else Run(out + [rest[0]], rest[1..])
  }

  /** The two fix-ups after the loop, for a nonempty input. */
  function Finish(out: string): string
  {
    if |out| > 1 && out[|out| - 1] == '/' then out[..|out| - 1]
    else if out == "" then "/"
    else out
  }

  // ---------------------------------------------------------------- rules meet stacks

  /** A stack as the loop has it in the buffer: the root is still empty there. */
  function Emit(st: Stack): string
  {
    if st.names == [] then "" else Render(st)
  }

  lemma EmitEnter(st: Stack, f: string)
    requires WellFormed(st) && Proper(f)
    ensures Emit(Enter(st, f)) == Emit(st) + "/" + f
  {
    if st.names == [] {
      assert st.names + [f] == [f];
    } else {
      JoinSnoc(st.names, f);
    }
  }

  lemma {:induction false} PopNameOver(out: string, f: string)
    requires '/' !in f
    ensures PopName(out + "/" + f) == out
    ensures PopName(f) == ""
  {
    var s := out + "/" + f;
    if f == "" {
      assert s[..|s| - 1] == out;
    } else {
      var g := f[..|f| - 1];
      PopNameOver(out, g);
      assert s[..|s| - 1] == out + "/" + g;
    }
  }

  lemma EmitParent(st: Stack)
    requires WellFormed(st)
    ensures PopName(Emit(st)) == Emit(Enter(st, ".."))
  {
    if |st.names| == 1 {
      var f := st.names[0];
      PopNameOver("", f);
      assert "" + "/" + f == "/" + f;
    } else if |st.names| > 1 {
      var last := |st.names| - 1;
      JoinSnoc(st.names[..last], st.names[last]);
      assert st.names == st.names[..last] + [st.names[last]];
      var st' := Enter(st, "..");
      assert Emit(st) == Emit(st') + "/" + st.names[last];
      PopNameOver(Emit(st'), st.names[last]);
    }
  }

  /** A slash-free stretch is copied verbatim. */
  lemma {:induction false} RunCopies(out: string, f: string, rest: string)
    requires '/' !in f
    ensures Run(out, f + rest) == Run(out + f, rest)
    decreases |f|
  {
    if f == "" {
      assert f + rest == rest && out + f == out;
    } else {
      assert (f + rest)[1..] == f[1..] + rest;
      assert out + [f[0]] + f[1..] == out + f;
      RunCopies(out + [f[0]], f[1..], rest);
    }
  }

  lemma EmitEndsInName(st: Stack)
    requires WellFormed(st)
    ensures Finish(Emit(st)) == Render(st)
  {
    if st.names != [] {
      var last := |st.names| - 1;
      assert st.names == st.names[..last] + [st.names[last]];
      if last > 0 {
        JoinSnoc(st.names[..last], st.names[last]);
      }
      assert Render(st)[|Render(st)| - 1] == st.names[last][|st.names[last]| - 1];
    }
  }

  /** Everything after a slash (or the end of the path), as the fields it holds. */
  function FieldsAfter(rest: string): (fields: seq<string>)
    ensures forall i | 0 <= i < |fields| :: '/' !in fields[i]
  {
    if rest == "" then [] else Split(rest[1..])
  }

  /** Cuts the first field off what starts with a slash. */
  lemma CutField(rest: string) returns (f: string, tail: string)
    requires rest != "" && rest[0] == '/'
    ensures rest == "/" + f + tail && '/' !in f
    ensures tail == "" || tail[0] == '/'
    ensures FieldsAfter(rest) == [f] + FieldsAfter(tail)
  {
    var g := rest[1..];
    var k := FieldLen(g);
    f, tail := g[..k], g[k..];
    assert tail != "" ==> g[k + 1..] == tail[1..];
    assert tail == "" ==> f == g;
  }

  /** From a stack boundary on, the cursors do what walking the remaining fields does. */
  lemma {:induction false} RunWalks(st: Stack, rest: string)
    requires WellFormed(st)
    requires rest == "" || rest[0] == '/'
    ensures Finish(Run(Emit(st), rest)) == Render(Walk(st, FieldsAfter(rest)))
    decreases |rest|
  {
    if rest == "" {
      EmitEndsInName(st);
    } else {
      var f, tail := CutField(rest);
      var st' := Enter(st, f);
      EnterWellFormed(st, f);
      assert FieldsAfter(rest)[1..] == FieldsAfter(tail);
      assert Walk(st, FieldsAfter(rest)) == Walk(st', FieldsAfter(tail));
      if f == "" && tail == "" {
        TrailingSlash(st);
      } else {
        RunField(st, f, tail);
        RunWalks(st', tail);
      }
    }
  }

  lemma TrailingSlash(st: Stack)
    requires WellFormed(st)
    ensures Finish(Run(Emit(st), "/")) == Render(st)
  {
    EmitEndsInName(st);
    assert Run(Emit(st), "/") == Run(Emit(st) + "/", "");
    assert (Emit(st) + "/")[..|Emit(st)|] == Emit(st);
  }

  /** One field, with the slash in front of it. */
  lemma RunField(st: Stack, f: string, rest: string)
    requires WellFormed(st) && '/' !in f
    requires rest == "" || rest[0] == '/'
    ensures f != "" || rest != "" ==>
              Run(Emit(st), "/" + f + rest) == Run(Emit(Enter(st, f)), rest)
  {
    var s := "/" + f + rest;
    if f == "" {
      assert s[1..] == rest;
    } else if f == "." {
      assert s[2..] == rest;
    } else if f == ".." {
      assert s[3..] == rest;
      EmitParent(st);
    } else {
      assert s[1..] == f + rest;
      assert s[1] == f[0];
      PlainField(f, rest);
      RunCopies(Emit(st) + "/", f, rest);
      EmitEnter(st, f);
    }
  }

  /** No rule fires at the slash in front of a proper name. */
  lemma PlainField(f: string, rest: string)
    requires Proper(f)
    requires rest == "" || rest[0] == '/'
    ensures !AtDoubleSlash("/" + f + rest)
    ensures !AtParent("/" + f + rest)
    ensures !AtSelf("/" + f + rest)
  {
    var s := "/" + f + rest;
    assert s[1] == f[0];
    if f[0] == '.' {
      assert f != "." ==> |f| > 1;
      assert s[2] == f[1];
      if f[1] == '.' {
        assert f != ".." ==> |f| > 2;
        assert s[3] == f[2];
      }
    }
  }

  /** The rewriting rules compute the normal form. */
  lemma RunNormalizes(s: string)
    requires s != ""
    ensures Finish(Run("", s)) == Normalized(s)
  {
    var k := FieldLen(s);
    var f, rest := s[..k], s[k..];
    assert rest != "" ==> s[k + 1..] == rest[1..];
    assert f + rest == s && (rest == "" ==> f == s);
    assert Split(s) == [f] + FieldsAfter(rest);
    assert Split(s)[1..] == FieldsAfter(rest);
    RunCopies("", f, rest);
    assert "" + f == f;
    assert Emit(Start(f)) == f;
    RunWalks(Start(f), rest);
  }

  /** Where no rule applies, one character is copied. */
  lemma RunsOn(out: string, rest: string)
    requires rest != "" && !AtDoubleSlash(rest) && !AtParent(rest) && !AtSelf(rest)
    ensures Run(out, rest) == Run(out + [rest[0]], rest[1..])
  {
  }

  lemma {:induction false} RunShrinks(out: string, rest: string)
    ensures |Run(out, rest)| <= |out| + |rest|
    ensures '\0' !in out && '\0' !in rest ==> '\0' !in Run(out, rest)
    decreases |rest|
  {
    if AtDoubleSlash(rest) {
      RunShrinks(out, rest[1..]);
    } else if AtParent(rest) {
      PopNameIsPrefix(out);
      RunShrinks(PopName(out), rest[3..]);
    } else if AtSelf(rest) {
      RunShrinks(out, rest[2..]);
    } else if rest != "" {
      RunShrinks(out + [rest[0]], rest[1..]);
    }
  }

  lemma {:induction false} PopNameIsPrefix(out: string)
    ensures PopName(out) <= out
  {
    if out != "" && out[|out| - 1] != '/' {
      PopNameIsPrefix(out[..|out| - 1]);
    }
  }

  /** The normal form never needs more room than the input. */
  lemma NormalizedShrinks(s: string)
    ensures |Normalized(s)| <= |s|
    ensures '\0' !in s ==> '\0' !in Normalized(s)
  {
    if s != "" {
      RunNormalizes(s);
      RunShrinks("", s);
    }
  }

  // ---------------------------------------------------------------- the C++ loop

  /** The source's `uint32_t`. No cursor, and no lookahead from one, may leave it. */
  newtype uint32 = x: int | 0 <= x <= 0xFFFF_FFFF

  const UINT32_MAX: nat := 0xFFFF_FFFF

  function Truncated(n: nat): uint32
  {
    (n % (UINT32_MAX + 1)) as uint32
  }

  /** `normalizePath`, for every string whose length fits the source's 32-bit cursors. A length that
      is cut down to 0 shows what happens beyond: the path is left as it is. Nothing behind the
      terminating NUL is written, and no read goes past it: every index below is checked against an
      array that may end right there, and every cursor against its 32 bits. */
  method NormalizePath(path: array<char>)
    requires '\0' in path[..]
    requires StrLen(path[..]) <= UINT32_MAX || Truncated(StrLen(path[..])) == 0
    modifies path
    ensures '\0' in path[..]
    ensures old(StrLen(path[..])) <= UINT32_MAX ==> CString(path[..]) == Normalized(old(CString(path[..])))
    ensures old(StrLen(path[..])) > UINT32_MAX ==> path[..] == old(path[..])
    ensures forall k | old(StrLen(path[..])) <= k < path.Length :: path[k] == old(path[k])
  {
    var inputLen := Truncated(StrLen(path[..]));
    ghost var s := path[..inputLen];
    assert StrLen(path[..]) <= UINT32_MAX ==> inputLen as int == StrLen(path[..]);
    var writePos := Rewrite(path, inputLen);
    RunShrinks("", s);
    FixSlashes(path, writePos, inputLen);
    if s != "" {
      RunNormalizes(s);
    }
  }

  /** The outer loop: collapse at the read cursor, then copy one character. */
  method Rewrite(path: array<char>, inputLen: uint32) returns (writePos: uint32)
    requires inputLen as int < path.Length && '\0' !in path[..inputLen]
    requires inputLen > 0 ==> path[inputLen] == '\0'
    modifies path
    ensures writePos <= inputLen
    ensures path[..writePos] == Run("", old(path[..inputLen]))
    ensures if inputLen > 0 then path[writePos] == '\0' else path[..] == old(path[..])
    ensures path[inputLen..] == old(path[inputLen..])
  {
    ghost var s := path[..inputLen];
    ghost var tail := path[inputLen..];
    writePos := 0;
    var readPos: uint32 := 0;
    assert s[0..] == s && path[..0] == "";
    while writePos < inputLen
      invariant 0 <= writePos <= readPos <= inputLen
      invariant path[readPos..inputLen] == s[readPos..] && path[inputLen..] == tail
      invariant Run(path[..writePos], s[readPos..]) == Run("", s)
      decreases inputLen - readPos
    {
      assert path[inputLen] == tail[0];
      readPos, writePos := CollapseAt(path, s, readPos, writePos);
      ghost var out, rest := path[..writePos], s[readPos..];
      assert path[readPos..inputLen] == rest;
      path[writePos] := path[readPos];
      if path[writePos] == '\0' {
        assert rest == "" && path[..writePos] == out;
        break;
      }
      assert readPos < inputLen;
      RunsOn(out, rest);
      assert path[..writePos + 1] == out + [rest[0]];
      assert rest[1..] == s[readPos + 1..] == path[readPos + 1..inputLen];
      writePos := writePos + 1;
      readPos := readPos + 1;
    }
    assert path[inputLen] == tail[0];
    assert writePos == inputLen ==> s[readPos..] == "";
  }

  /** The inner do-while: applies the three rules at the read cursor until none fires. The
      buffer is only read here. */
  method CollapseAt(path: array<char>, ghost s: string, readPos0: uint32, writePos0: uint32)
    returns (readPos: uint32, writePos: uint32)
    requires writePos0 <= readPos0 && readPos0 as int <= |s| <= UINT32_MAX && |s| < path.Length
    requires '\0' !in s && path[readPos0..|s|] == s[readPos0..] && path[|s|] == '\0'
    ensures writePos <= writePos0 && readPos0 <= readPos && readPos as int <= |s|
    ensures Run(path[..writePos], s[readPos..]) == Run(path[..writePos0], s[readPos0..])
    ensures path[readPos..|s|] == s[readPos..]
    ensures var rest := s[readPos..]; !AtDoubleSlash(rest) && !AtParent(rest) && !AtSelf(rest)
  {
    readPos, writePos := readPos0, writePos0;
    assert forall k: int | readPos0 as int <= k < |s| :: path[k] == s[k] by {
      assert forall k: int | readPos0 as int <= k < |s| :: path[k] == path[readPos0..|s|][k - readPos0 as int];
    }
    var found := true;
    while found
      invariant writePos <= writePos0 && readPos0 <= readPos && readPos as int <= |s|
      invariant Run(path[..writePos], s[readPos..]) == Run(path[..writePos0], s[readPos0..])
      invariant !found ==> var rest := s[readPos..]; !AtDoubleSlash(rest) && !AtParent(rest) && !AtSelf(rest)
      decreases |s| - readPos as int, found
    {
      ghost var rest := s[readPos..];
      found := false;
      if path[readPos] == '/' {
        if path[readPos + 1] == '/' {
          readPos := readPos + 1;
          assert s[readPos..] == rest[1..];
          found := true;
        } else if path[readPos + 1] == '.' {
          if path[readPos + 2] == '.' && (path[readPos + 3] == '\0' || path[readPos + 3] == '/') {
            readPos := readPos + 3;
            assert s[readPos..] == rest[3..];
            writePos := BackOverName(path, writePos);
            found := true;
          } else if path[readPos + 2] == '/' || path[readPos + 2] == '\0' {
            readPos := readPos + 2;
            assert s[readPos..] == rest[2..];
            found := true;
          }
        }
      }
    }
  }

  /** The write cursor's way back over the last name. */
  method BackOverName(path: array<char>, start: uint32) returns (writePos: uint32)
    requires start as int <= path.Length
    ensures writePos <= start
    ensures path[..writePos] == PopName(path[..start])
  {
    writePos := start;
    while writePos > 0 && path[writePos - 1] != '/'
      invariant writePos <= start
      invariant PopName(path[..writePos]) == PopName(path[..start])
    {
      assert path[..writePos][..writePos - 1] == path[..writePos - 1];
      writePos := writePos - 1;
    }
    if writePos != 0 {
      assert path[..writePos][..writePos - 1] == path[..writePos - 1];
      writePos := writePos - 1;
    }
  }

  /** The two fix-ups: drop a trailing slash, restore the root slash. */
  method FixSlashes(path: array<char>, writePos: uint32, inputLen: uint32)
    requires writePos <= inputLen && inputLen as int < path.Length
    requires '\0' in path[..] && '\0' !in path[..writePos]
    requires inputLen > 0 ==> path[writePos] == '\0' && path[inputLen] == '\0'
    modifies path
    ensures '\0' in path[..]
    ensures if inputLen > 0 then CString(path[..]) == Finish(old(path[..writePos])) else path[..] == old(path[..])
    ensures forall k | inputLen as int <= k < path.Length :: path[k] == old(path[k])
  {
    ghost var out := path[..writePos];
    if writePos > 1 && path[writePos - 1] == '/' {
      path[writePos - 1] := '\0';
    }
    if path[0] == '\0' && inputLen >= 1 {
      path[0] := '/';
      path[1] := '\0';
    }
    if inputLen > 0 {
      assert path[..|Finish(out)|] == Finish(out);
      StrLenAt(path[..], |Finish(out)|);
    }
  }

  /** The path part of `initWorkItem`: a fresh buffer of the input's size, `strcpy`, and
      normalisation in place. The caller's string stays as it is. */
  method NormalizedCopy(path: array<char>) returns (filename: array<char>)
    requires '\0' in path[..]
    requires StrLen(path[..]) <= UINT32_MAX || Truncated(StrLen(path[..])) == 0
    ensures fresh(filename) && filename.Length == StrLen(path[..]) + 1
    ensures '\0' in filename[..]
    ensures CString(filename[..])
            == if StrLen(path[..]) <= UINT32_MAX then Normalized(CString(path[..])) else CString(path[..])
  {
    var pathLen := StrLen(path[..]) + 1;
    filename := new char[pathLen](i requires 0 <= i < pathLen reads path => path[i]);
    assert filename[..] == path[..pathLen];
    assert filename[pathLen - 1] == '\0' && filename[..pathLen - 1] == CString(path[..]);
    StrLenAt(filename[..], pathLen - 1);
    NormalizePath(filename);
  }
}
