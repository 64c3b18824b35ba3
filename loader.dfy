/**
 * `LatexIngestor.carregar_projeto_recursivo`: every `\input{name}` or
 * `\include{name}` of a file is replaced, left to right, by the recursively
 * expanded text of the file it names (".tex" appended when missing, the
 * name joined to the directory of the file holding the directive). Files
 * are a map from path to content; `fuel` stands for Python's recursion
 * limit, which is what stops an include cycle.
 *
 * The function as written refers to a base directory variable that is never
 * bound, so its first directive raises `NameError`: `LoadAsWritten` models
 * that, `Load` the evident intent, where the base directory is the directory
 * of the file being loaded.
 */
module DocumentLoader {
  import opened Options
  import opened Strings

  const InputOpen: string := "\\input{"
  const IncludeOpen: string := "\\include{"
  const TexSuffix: string := ".tex"
  /** The unbound name the function as written looks up. */
  const BaseDirectoryName: string := "diretorio_base"

  datatype LoadError =
    | FileNotFound(path: string)
    | NameError(name: string)
    | RecursionLimit

  /** `name` with ".tex" appended unless it already ends with it. */
  function TexName(name: string): string {
    if Closes(name, TexSuffix) then name else name + TexSuffix
  }

  /** `s` ends with `p`, compared one character at a time (the same as
      `EndsWith`, by `ClosesEndsWith`). */
  predicate Closes(s: string, p: string) {
    |p| <= |s| && forall i :: |s| - |p| <= i < |s| ==> s[i] == p[i - (|s| - |p|)]
  }

  lemma ClosesEndsWith(s: string, p: string)
    ensures Closes(s, p) <==> EndsWith(s, p)
  {
    if Closes(s, p) {
      assert s[|s| - |p|..] == p;
    }
    if EndsWith(s, p) {
      forall i | |s| - |p| <= i < |s| ensures s[i] == p[i - (|s| - |p|)] {
        assert s[|s| - |p|..][i - (|s| - |p|)] == s[i];
      }
    }
  }

  /** The result ends with ".tex", and ".tex" is appended exactly when the
      name does not already end with it. */
  lemma TexNameSuffix(name: string)
    ensures EndsWith(TexName(name), TexSuffix)
    ensures TexName(name) == name <==> EndsWith(name, TexSuffix)
    ensures TexName(name) != name ==> TexName(name) == name + TexSuffix
  {
    var r := name + TexSuffix;
    assert r[|r| - |TexSuffix|..] == TexSuffix;
    ClosesEndsWith(name, TexSuffix);
  }

  /** Two-argument POSIX `os.path.join`. */
  function Join(base: string, name: string): string {
    if name != [] && name[0] == '/' then name
    else if base == [] || base[|base| - 1] == '/' then base + name
    else base + "/" + name
  }

  /** An absolute name, or an empty base, gives the name itself; otherwise the
      result starts with the base and ends with the name. */
  lemma JoinShape(base: string, name: string)
    ensures StartsWith(name, "/") || base == [] ==> Join(base, name) == name
    ensures !StartsWith(name, "/") ==> EndsWith(Join(base, name), name) && StartsWith(Join(base, name), base)
  {
    var r := Join(base, name);
    if !StartsWith(name, "/") {
      assert r[..|base|] == base && r[|r| - |name|..] == name;
    }
  }

  /** End (one past) of the last `/` among the first `i` characters of `p`,
      or 0 when there is none: the length of the directory part with its
      trailing slash. */
  function HeadLength(p: string, i: nat): (n: nat)
    requires i <= |p|
    ensures n <= i
    ensures n > 0 ==> p[n - 1] == '/'
  {
    if i == 0 then 0
    else if p[i - 1] == '/' then i
    else HeadLength(p, i - 1)
  }

  /** Length of `p[..i]` once its trailing slashes are stripped. */
  function TrimmedLength(p: string, i: nat): (k: nat)
    requires i <= |p|
    ensures k <= i
  {
    if i > 0 && p[i - 1] == '/' then TrimmedLength(p, i - 1) else i
  }

  /** POSIX `os.path.dirname`: the text up to the last `/`, with trailing
      slashes removed unless it is slashes only (stripping those would leave
      nothing). */
  function Dirname(p: string): string {
    var n := HeadLength(p, |p|);
    var k := TrimmedLength(p, n);
    if k == 0 then p[..n] else p[..k]
  }

  /** `s` begins with `p`, compared one character at a time, as the pattern's
      literal part is matched (the same as `StartsWith`, by `OpensStartsWith`). */
  predicate Opens(s: string, p: string) {
    |p| <= |s| && forall i :: 0 <= i < |p| ==> s[i] == p[i]
  }

  lemma OpensStartsWith(s: string, p: string)
    ensures Opens(s, p) <==> StartsWith(s, p)
  {
    if Opens(s, p) {
      assert s[..|p|] == p;
    }
    if StartsWith(s, p) {
      forall i | 0 <= i < |p| ensures s[i] == p[i] {
        assert s[..|p|][i] == s[i];
      }
    }
  }

  /** Length of the directive opening `s` starts with, or 0. */
  function OpeningLength(s: string): nat {
    if Opens(s, InputOpen) then |InputOpen|
    else if Opens(s, IncludeOpen) then |IncludeOpen|
    else 0
  }

  /** A match of `\\(?:input|include)\{([^}]+)\}` at the start of `s`: the
      file name (group 1) and the length of the whole match. */
  function DirectiveAt(s: string): (r: Option<(string, nat)>)
    ensures r.Some? ==> r.value.0 != [] && '}' !in r.value.0 && 0 < r.value.1 <= |s|
  {
    var k := OpeningLength(s);
    if k == 0 then None
    else
      match CharIndex(s[k..], '}')
      case None => None
      case Some(j) =>
        if j == 0 then None
        else Some((s[k..][..j], k + j + 1))
  }

  /** The text a recognised directive spans is an opening, the name and the
      closing brace. */
  lemma DirectiveAtShape(s: string)
    requires DirectiveAt(s).Some?
    ensures var (name, n) := DirectiveAt(s).value;
            s[..n] == InputOpen + name + "}" || s[..n] == IncludeOpen + name + "}"
  {
    var k := OpeningLength(s);
    var j := CharIndex(s[k..], '}').value;
    OpeningText(s);
    SpanSplits(s, k, j);
  }

  /** A recognised opening is one of the two literal openings. */
  lemma OpeningText(s: string)
    requires OpeningLength(s) > 0
    ensures s[..OpeningLength(s)] == InputOpen || s[..OpeningLength(s)] == IncludeOpen
  {
    if Opens(s, InputOpen) {
      OpensStartsWith(s, InputOpen);
    } else {
      OpensStartsWith(s, IncludeOpen);
    }
  }

  /** The span of a match is its opening, its name and the closing brace. */
  lemma SpanSplits(s: string, k: nat, j: nat)
    requires k + j < |s| && s[k + j] == '}'
    ensures s[..k + j + 1] == s[..k] + s[k..][..j] + "}"
  {
  }

  /** Some directive starts somewhere in `s`. */
  predicate HasDirective(s: string)
    decreases |s|
  {
    s != [] && (DirectiveAt(s).Some? || HasDirective(s[1..]))
  }

  /** The expanded content of the file at `path`; its directives name files
      relative to its own directory. */
  function Load(files: map<string, string>, path: string, fuel: nat): Result<string, LoadError>
    decreases fuel, 0
  {
    if fuel == 0 then Err(RecursionLimit)
    else if path !in files then Err(FileNotFound(path))
    else Expand(files, Dirname(path), files[path], fuel - 1)
  }

  /** `re.sub` of the directive pattern over `s`, text of a file in directory
      `dir`, each match replaced by the loaded file it names; the first error
      raised ends the substitution. */
  function Expand(files: map<string, string>, dir: string, s: string, fuel: nat): Result<string, LoadError>
    decreases fuel, 1, |s|
  {
    if s == [] then Ok([])
    else
      match DirectiveAt(s)
      case Some((name, n)) =>
        var sub := Load(files, Join(dir, TexName(name)), fuel);
        if sub.Err? then sub
        else
          var rest := Expand(files, dir, s[n..], fuel);
          if rest.Err? then rest else Ok(sub.value + rest.value)
      case None =>
        var rest := Expand(files, dir, s[1..], fuel);
        if rest.Err? then rest else Ok([s[0]] + rest.value)
  }

  /** The function as written: the file is read, and the first directive
      makes the substitution callback look up the unbound base directory. */
  function LoadAsWritten(files: map<string, string>, path: string): (r: Result<string, LoadError>)
    ensures r.Ok? <==> path in files && !HasDirective(files[path])
    ensures r.Ok? ==> r.value == files[path]
  {
    if path !in files then Err(FileNotFound(path))
    else if HasDirective(files[path]) then Err(NameError(BaseDirectoryName))
    else Ok(files[path])
  }

  // ---------------------------------------------------------------------------
  // Properties

  /** Text without a directive comes back unchanged. */
  lemma {:induction false} ExpandPlain(files: map<string, string>, dir: string, s: string, fuel: nat)
    requires !HasDirective(s)
    ensures Expand(files, dir, s, fuel) == Ok(s)
    decreases |s|
  {
    if s != [] {
      ExpandPlain(files, dir, s[1..], fuel);
      assert s == [s[0]] + s[1..];
    }
  }

  /** A file without directives loads to its own content, exactly as the
      function as written returns it. */
  lemma LoadPlain(files: map<string, string>, path: string, fuel: nat)
    requires path in files && !HasDirective(files[path]) && fuel >= 1
    ensures Load(files, path, fuel) == Ok(files[path]) == LoadAsWritten(files, path)
  {
    ExpandPlain(files, Dirname(path), files[path], fuel - 1);
  }

  /** A text that does not open with a backslash has no directive at its start. */
  lemma NoDirectiveAtPlain(s: string)
    requires s != [] && s[0] != '\\'
    ensures DirectiveAt(s).None?
  {
    assert !Opens(s, InputOpen) && !Opens(s, IncludeOpen);
  }

  /** No backslash, no directive. */
  lemma {:induction false} NoBackslashNoDirective(s: string)
    requires '\\' !in s
    ensures !HasDirective(s)
    decreases |s|
  {
    if s != [] {
      NoDirectiveAtPlain(s);
      NoBackslashNoDirective(s[1..]);
    }
  }

  /** Expansion over a character that opens no directive copies it through. */
  lemma ExpandCharStep(files: map<string, string>, dir: string, s: string, fuel: nat)
    requires s != [] && DirectiveAt(s).None?
    ensures Expand(files, dir, s, fuel).Ok? == Expand(files, dir, s[1..], fuel).Ok?
    ensures Expand(files, dir, s, fuel).Ok? ==>
              Expand(files, dir, s, fuel).value == [s[0]] + Expand(files, dir, s[1..], fuel).value
  {
  }

  /** Loading a present file with fuel left is expanding its content in its
      own directory. */
  lemma LoadStep(files: map<string, string>, path: string, fuel: nat)
    requires fuel >= 1 && path in files
    ensures Load(files, path, fuel) == Expand(files, Dirname(path), files[path], fuel - 1)
  {
  }

  /** More fuel never changes a successful load. */
  lemma {:induction false} LoadFuel(files: map<string, string>, path: string, fuel: nat, more: nat)
    requires Load(files, path, fuel).Ok?
    ensures Load(files, path, fuel + more) == Load(files, path, fuel)
    decreases fuel, 0
  {
    assert fuel >= 1 && path in files;
    var e := files[path];
    var dir := Dirname(path);
    assert Load(files, path, fuel) == Expand(files, dir, e, fuel - 1) by {
      LoadStep(files, path, fuel);
    }
    assert Load(files, path, fuel + more) == Expand(files, dir, e, fuel - 1 + more) by {
      LoadStep(files, path, fuel + more);
    }
    ExpandFuel(files, dir, e, fuel - 1, more);
  }

  lemma {:induction false} ExpandFuel(files: map<string, string>, dir: string, s: string, fuel: nat, more: nat)
    requires Expand(files, dir, s, fuel).Ok?
    ensures Expand(files, dir, s, fuel + more) == Expand(files, dir, s, fuel)
    decreases fuel, 1, |s|
  {
    if s != [] {
      match DirectiveAt(s)
      case Some((name, n)) =>
        LoadFuel(files, Join(dir, TexName(name)), fuel, more);
        ExpandFuel(files, dir, s[n..], fuel, more);
      case None =>
        ExpandFuel(files, dir, s[1..], fuel, more);
    }
  }

  /** A file that opens by including itself never loads: the recursion runs
      until the limit. */
  lemma {:induction false} SelfIncludeFails(files: map<string, string>, path: string, fuel: nat)
    requires path in files && DirectiveAt(files[path]).Some?
    requires Join(Dirname(path), TexName(DirectiveAt(files[path]).value.0)) == path
    ensures Load(files, path, fuel) == Err(RecursionLimit)
    decreases fuel
  {
    if fuel > 0 {
      SelfIncludeFails(files, path, fuel - 1);
      FirstDirectiveFails(files, path, fuel);
    }
  }

  /** A file whose first directive names a file that does not load fails
      with that file's error. */
  lemma FirstDirectiveFails(files: map<string, string>, path: string, fuel: nat)
    requires fuel >= 1 && path in files && DirectiveAt(files[path]).Some?
    requires Load(files, Join(Dirname(path), TexName(DirectiveAt(files[path]).value.0)), fuel - 1).Err?
    ensures Load(files, path, fuel) == Load(files, Join(Dirname(path), TexName(DirectiveAt(files[path]).value.0)), fuel - 1)
  {
    LoadStep(files, path, fuel);
    DirectiveFailureStops(files, Dirname(path), files[path], fuel - 1);
  }

  /** A directive whose file does not load ends the expansion with its error. */
  lemma DirectiveFailureStops(files: map<string, string>, dir: string, s: string, fuel: nat)
    requires DirectiveAt(s).Some?
    requires Load(files, Join(dir, TexName(DirectiveAt(s).value.0)), fuel).Err?
    ensures Expand(files, dir, s, fuel) == Load(files, Join(dir, TexName(DirectiveAt(s).value.0)), fuel)
  {
  }

  /** A directive at the start of the text is recognised, with its name. */
  lemma DirectiveAtFinds(opening: string, name: string, post: string)
    requires opening == InputOpen || opening == IncludeOpen
    requires name != [] && '}' !in name
    ensures DirectiveAt(opening + name + "}" + post) == Some((name, |opening| + |name| + 1))
  {
    var t := name + "}" + post;
    assert opening + name + "}" + post == opening + t;
    OpeningLengthOf(opening, t);
    CharIndexAfter(name, '}', post);
    DirectiveAtAfter(opening, t, |name|);
    assert t[..|name|] == name;
  }

  /** The opening a text was built from is the one recognised. */
  lemma OpeningLengthOf(opening: string, t: string)
    requires opening == InputOpen || opening == IncludeOpen
    ensures OpeningLength(opening + t) == |opening|
  {
    OpensPrefix(opening, t);
    if opening == IncludeOpen {
      IncludeNotInput(t);
    }
  }

  /** After a recognised opening, the first `}` ends the match. */
  lemma DirectiveAtAfter(opening: string, t: string, j: nat)
    requires opening != [] && OpeningLength(opening + t) == |opening|
    requires CharIndex(t, '}') == Some(j) && j > 0
    ensures DirectiveAt(opening + t) == Some((t[..j], |opening| + j + 1))
  {
    assert (opening + t)[|opening|..] == t;
  }

  /** A text opens with whatever it was built from first. */
  lemma OpensPrefix(p: string, t: string)
    ensures Opens(p + t, p)
  {
  }

  /** `\include{` does not open with `\input{`: they part at the fourth
      character. */
  lemma IncludeNotInput(t: string)
    ensures !Opens(IncludeOpen + t, InputOpen)
  {
    assert (IncludeOpen + t)[3] == 'c' != InputOpen[3];
  }

  /** Text before the first backslash is copied through in front of the rest. */
  lemma {:induction false} ExpandPrefix(files: map<string, string>, dir: string, pre: string, t: string, fuel: nat)
    requires '\\' !in pre
    ensures Expand(files, dir, pre + t, fuel).Ok? == Expand(files, dir, t, fuel).Ok?
    ensures Expand(files, dir, t, fuel).Ok? ==>
              Expand(files, dir, pre + t, fuel).value == pre + Expand(files, dir, t, fuel).value
    decreases |pre|
  {
    if pre != [] {
      var s := pre + t;
      assert s[1..] == pre[1..] + t;
      assert Expand(files, dir, s, fuel).Ok? == Expand(files, dir, pre[1..] + t, fuel).Ok?
             && (Expand(files, dir, s, fuel).Ok? ==>
                   Expand(files, dir, s, fuel).value == [pre[0]] + Expand(files, dir, pre[1..] + t, fuel).value) by {
        assert s[0] == pre[0];
        NoDirectiveAtPlain(s);
        ExpandCharStep(files, dir, s, fuel);
      }
      ExpandPrefix(files, dir, pre[1..], t, fuel);
      if Expand(files, dir, t, fuel).Ok? {
        ConcatAssoc([pre[0]], pre[1..], Expand(files, dir, t, fuel).value);
        assert [pre[0]] + pre[1..] == pre;
      }
    } else {
      assert pre + t == t;
    }
  }

  /** Expansion at a directive whose file loads and whose remaining text
      expands: the loaded text, then the rest. */
  lemma ExpandAtDirective(files: map<string, string>, dir: string, s: string, fuel: nat)
    requires DirectiveAt(s).Some?
    requires Load(files, Join(dir, TexName(DirectiveAt(s).value.0)), fuel).Ok?
    requires Expand(files, dir, s[DirectiveAt(s).value.1..], fuel).Ok?
    ensures Expand(files, dir, s, fuel)
            == Ok(Load(files, Join(dir, TexName(DirectiveAt(s).value.0)), fuel).value
                  + Expand(files, dir, s[DirectiveAt(s).value.1..], fuel).value)
  {
  }

  /** A directive naming a file without directives, followed by plain text,
      expands to that file's content followed by the text. */
  lemma ExpandInputPlain(files: map<string, string>, dir: string, name: string, post: string, fuel: nat)
    requires !HasDirective(post) && name != [] && '}' !in name
    requires Join(dir, TexName(name)) in files && !HasDirective(files[Join(dir, TexName(name))])
    requires fuel >= 1
    ensures Expand(files, dir, InputOpen + name + "}" + post, fuel)
            == Ok(files[Join(dir, TexName(name))] + post)
  {
    var child := Join(dir, TexName(name));
    var d := InputOpen + name + "}" + post;
    DirectiveAtFinds(InputOpen, name, post);
    var n := |InputOpen| + |name| + 1;
    assert d[n..] == post;
    LoadPlain(files, child, fuel);
    ExpandPlain(files, dir, post, fuel);
    ExpandAtDirective(files, dir, d, fuel);
  }

  /** Plain text in front of text that expands is copied through in front of
      its expansion. */
  lemma ExpandAfterPlain(files: map<string, string>, dir: string,
                         pre: string, d: string, child: string, post: string, fuel: nat)
    requires '\\' !in pre
    requires Expand(files, dir, d, fuel) == Ok(child + post)
    ensures Expand(files, dir, pre + d, fuel) == Ok(pre + child + post)
  {
    ExpandPrefix(files, dir, pre, d, fuel);
    ConcatAssoc(pre, child, post);
  }

  /** A file holding one `\input` between plain text loads to that text with
      the included file's content, named relative to the file's directory,
      spliced in where the directive stood. */
  lemma InlineChild(files: map<string, string>, path: string,
                    pre: string, name: string, post: string, fuel: nat)
    requires path in files && files[path] == pre + InputOpen + name + "}" + post
    requires '\\' !in pre && !HasDirective(post)
    requires name != [] && '}' !in name
    requires Join(Dirname(path), TexName(name)) in files
    requires !HasDirective(files[Join(Dirname(path), TexName(name))])
    requires fuel >= 2
    ensures Load(files, path, fuel) == Ok(pre + files[Join(Dirname(path), TexName(name))] + post)
  {
    var dir := Dirname(path);
    var d := InputOpen + name + "}" + post;
    var child := files[Join(dir, TexName(name))];
    assert Expand(files, dir, pre + d, fuel - 1) == Ok(pre + child + post) by {
      ExpandInputPlain(files, dir, name, post, fuel - 1);
      ExpandAfterPlain(files, dir, pre, d, child, post, fuel - 1);
    }
    assert files[path] == pre + d by {
      ConcatAssoc(pre, InputOpen + name + "}", post);
      ConcatAssoc(pre, InputOpen + name, "}");
      ConcatAssoc(pre, InputOpen, name);
    }
    LoadStep(files, path, fuel);
  }

  /** A file that is one directive and nothing else loads to what the file
      it names loads to, an error included. */
  lemma SingleDirectiveLoads(files: map<string, string>, path: string, name: string, fuel: nat)
    requires path in files && DirectiveAt(files[path]) == Some((name, |files[path]|))
    requires fuel >= 1
    ensures Load(files, path, fuel) == Load(files, Join(Dirname(path), TexName(name)), fuel - 1)
  {
    LoadStep(files, path, fuel);
    OnlyDirectiveExpands(files, Dirname(path), files[path], name, fuel - 1);
  }

  /** Text that is one directive and nothing else expands to what the file
      it names loads to. */
  lemma OnlyDirectiveExpands(files: map<string, string>, dir: string, s: string, name: string, fuel: nat)
    requires DirectiveAt(s) == Some((name, |s|))
    ensures Expand(files, dir, s, fuel) == Load(files, Join(dir, TexName(name)), fuel)
  {
    ExpandEmptyTail(files, dir, s, fuel);
    var sub := Load(files, Join(dir, TexName(name)), fuel);
    if sub.Ok? {
      AppendEmpty(sub.value);
    }
  }

  lemma ExpandEmptyTail(files: map<string, string>, dir: string, s: string, fuel: nat)
    ensures Expand(files, dir, s[|s|..], fuel) == Ok([])
  {
    assert s[|s|..] == [];
  }

  lemma AppendEmpty(t: string)
    ensures t + [] == t
  {
  }

  /** A project of two files: the main one includes the other by its bare name. */
  const ExampleProject: map<string, string> := map["main.tex" := "\\input{intro}", "intro.tex" := "x"]

  /** The function as written fails on that project ... */
  lemma IncludeFailsAsWritten()
    ensures LoadAsWritten(ExampleProject, "main.tex") == Err(NameError(BaseDirectoryName))
  {
    ExampleMainDirective();
  }

  lemma ExampleMainDirective()
    ensures DirectiveAt(ExampleProject["main.tex"]) == Some(("intro", |ExampleProject["main.tex"]|))
  {
    assert ExampleProject["main.tex"] == InputOpen + "intro" + "}" + [];
    DirectiveAtFinds(InputOpen, "intro", []);
  }

  lemma ExampleChildPath()
    ensures Join(Dirname("main.tex"), TexName("intro")) == "intro.tex"
  {
    DirnamePlain("main.tex");
    assert TexName("intro") == "intro.tex" by {
      assert "intro"[1] != TexSuffix[0];
    }
  }

  /** ... where the intended expansion loads the included file in its place. */
  lemma IncludeSplicedCorrected(files: map<string, string>, fuel: nat)
    requires files == ExampleProject && fuel >= 2
    ensures Load(files, "main.tex", fuel) == Ok("x")
  {
    assert Load(files, "intro.tex", fuel - 1) == Ok("x") by {
      NoBackslashNoDirective("x");
      LoadPlain(files, "intro.tex", fuel - 1);
    }
    ExampleMainDirective();
    ExampleChildPath();
    SingleDirectiveLoads(files, "main.tex", "intro", fuel);
  }

  // ---------------------------------------------------------------------------
  // Directories

  /** Characters other than `/` between `j` and `i` leave the directory part
      where it was. */
  lemma {:induction false} HeadLengthSkips(p: string, i: nat, j: nat)
    requires j <= i <= |p|
    requires forall k :: j <= k < i ==> p[k] != '/'
    ensures HeadLength(p, i) == HeadLength(p, j)
    decreases i
  {
    if i > j {
      HeadLengthSkips(p, i - 1, j);
    }
  }

  /** The directory of a name joined to a directory is that directory, for
      a plain name and a directory without a trailing slash. */
  lemma DirnameJoin(d: string, n: string)
    requires '/' !in n && !EndsWith(d, "/")
    ensures Dirname(Join(d, n)) == d
  {
    if d == [] {
      DirnamePlain(n);
    } else {
      var p := d + "/" + n;
      assert !StartsWith(n, "/");
      assert Join(d, n) == p;
      var m := |d| + 1;
      assert p[|d|] == '/';
      assert forall k :: m <= k < |p| ==> p[k] != '/' by {
        forall k | m <= k < |p| ensures p[k] != '/' {
          assert p[k] == n[k - m];
        }
      }
      HeadLengthSkips(p, |p|, m);
      assert d[|d| - 1] != '/' by {
        assert d[|d| - 1..] != "/";
      }
      assert p[|d| - 1] == d[|d| - 1];
      assert TrimmedLength(p, m) == |d|;
      assert p[..|d|] == d;
    }
  }

  /** A name without a slash has an empty directory. */
  lemma DirnamePlain(p: string)
    requires '/' !in p
    ensures Dirname(p) == []
  {
    assert forall k :: 0 <= k < |p| ==> p[k] != '/';
    HeadLengthSkips(p, |p|, 0);
  }

  /** A relative name joined to a directory without a trailing slash. */
  lemma JoinRelative(d: string, n: string)
    requires d != [] && !EndsWith(d, "/") && !StartsWith(n, "/")
    ensures Join(d, n) == d + "/" + n
  {
  }

  /** Appending ".tex" to a name behind a directory appends it to the name. */
  lemma TexNameInDir(d: string, a: string)
    ensures TexName(d + "/" + a) == d + "/" + TexName(a)
  {
    var p := d + "/" + a;
    ClosesEndsWith(p, TexSuffix);
    ClosesEndsWith(a, TexSuffix);
    if |a| >= |TexSuffix| {
      assert p[|p| - |TexSuffix|..] == a[|a| - |TexSuffix|..];
    } else if |p| >= |TexSuffix| {
      assert p[|d|] == '/';
      assert p[|p| - |TexSuffix|..][|TexSuffix| - 1 - |a|] == '/';
    }
    if !EndsWith(a, TexSuffix) {
      assert p + TexSuffix == d + "/" + (a + TexSuffix);
    }
  }

  /** The directory of a file named in a directory without slashes is that
      directory. */
  lemma DirnameInDir(d: string, a: string)
    requires d != [] && '/' !in d && '/' !in a
    ensures Dirname(d + "/" + TexName(a)) == d
  {
    var n := TexName(a);
    assert '/' !in n by {
      if n != a {
        assert forall k :: |a| <= k < |n| ==> n[k] == TexSuffix[k - |a|];
      }
    }
    assert !EndsWith(d, "/") by {
      assert d[|d| - 1] in d;
    }
    assert !StartsWith(n, "/") by {
      if n != [] {
        assert n[0] in n;
      }
    }
    JoinRelative(d, n);
    DirnameJoin(d, n);
  }

  /** Includes are resolved against the directory of the file that holds
      them: when `main`, in the root directory, is one directive naming
      `d/a` and the file `d/a.tex` is one directive naming `b`, loading
      `main` loads `d/b.tex` (and not the root's `b.tex`). */
  lemma NestedIncludeResolved(files: map<string, string>, main: string, d: string, a: string, b: string, fuel: nat)
    requires '/' !in main && d != [] && '/' !in d && '/' !in a && !StartsWith(b, "/")
    requires main in files && DirectiveAt(files[main]) == Some((d + "/" + a, |files[main]|))
    requires d + "/" + TexName(a) in files
    requires DirectiveAt(files[d + "/" + TexName(a)]) == Some((b, |files[d + "/" + TexName(a)]|))
    requires fuel >= 2
    ensures Load(files, main, fuel) == Load(files, d + "/" + TexName(b), fuel - 2)
  {
    ChapterPathIn(main, d, a);
    SiblingPathIn(d, a, b);
    SingleDirectiveLoads(files, main, d + "/" + a, fuel);
    SingleDirectiveLoads(files, d + "/" + TexName(a), b, fuel - 1);
  }

  /** A name with a directory, included from the root directory. */
  lemma ChapterPathIn(main: string, d: string, a: string)
    requires '/' !in main
    ensures Join(Dirname(main), TexName(d + "/" + a)) == d + "/" + TexName(a)
  {
    DirnamePlain(main);
    TexNameInDir(d, a);
  }

  /** A bare name, included from a file in directory `d`. */
  lemma SiblingPathIn(d: string, a: string, b: string)
    requires d != [] && '/' !in d && '/' !in a && !StartsWith(b, "/")
    ensures Join(Dirname(d + "/" + TexName(a)), TexName(b)) == d + "/" + TexName(b)
  {
    DirnameInDir(d, a);
    assert !EndsWith(d, "/") by {
      assert d[|d| - 1] in d;
    }
    assert !StartsWith(TexName(b), "/") by {
      if b != [] {
        assert TexName(b)[0] == b[0];
      }
    }
    JoinRelative(d, TexName(b));
  }
}
