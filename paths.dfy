/** The part of Python's `pathlib` (POSIX flavour) the modelled programs
    use: `Path(s)` parses a string into an optional root and its components,
    `str` writes it back, and `/`, `name` and `parent` work on the
    components. */
module Paths {
  import opened Text

  /** The components `pathlib` keeps of the `/`-separated pieces: empty
      pieces and `.` are dropped; `..` is kept as it is. */
  function Kept(parts: seq<string>): (r: seq<string>)
    ensures forall k :: 0 <= k < |r| ==> r[k] != "" && r[k] != "." && r[k] in parts
    ensures |r| <= |parts|
  {
    if parts == [] then []
    else (if parts[0] == "" || parts[0] == "." then [] else [parts[0]]) + Kept(parts[1..])
  }

  lemma {:induction false} KeptAll(parts: seq<string>)
    requires forall k :: 0 <= k < |parts| ==> parts[k] != "" && parts[k] != "."
    ensures Kept(parts) == parts
    decreases |parts|
  {
    if parts != [] {
      KeptAll(parts[1..]);
      assert [parts[0]] + parts[1..] == parts;
    }
  }

  /** Keeping distributes over concatenation. */
  lemma {:induction false} KeptAppend(a: seq<string>, b: seq<string>)
    ensures Kept(a + b) == Kept(a) + Kept(b)
    decreases |a|
  {
    if a != [] {
      var head := if a[0] == "" || a[0] == "." then [] else [a[0]];
      assert (a + b)[0] == a[0] && (a + b)[1..] == a[1..] + b;
      KeptAppend(a[1..], b);
      calc {
        Kept(a + b);
        head + Kept(a[1..] + b);
        head + (Kept(a[1..]) + Kept(b));
        { assert head + (Kept(a[1..]) + Kept(b)) == (head + Kept(a[1..])) + Kept(b); }
        Kept(a) + Kept(b);
      }
    } else {
      assert a + b == b;
    }
  }

  /** A component: not empty, not `.`, no separator. */
  predicate Component(s: string) {
    s != "" && s != "." && '/' !in s
  }

  /** A path with a root: it starts with `/`. */
  predicate Rooted(p: string) {
    p != [] && p[0] == '/'
  }

  /** The components of `Path(p)`. */
  function Components(p: string): (r: seq<string>)
    ensures forall k :: 0 <= k < |r| ==> Component(r[k])
  {
    var pieces := Split(p, '/');
    SplitPiecesFree(p, '/');
    var r := Kept(pieces);
    assert forall k :: 0 <= k < |r| ==> '/' !in r[k] by {
      forall k | 0 <= k < |r|
        ensures '/' !in r[k]
      {
        var j :| 0 <= j < |pieces| && pieces[j] == r[k];
      }
    }
    r
  }

  /** `str` of a path with or without a root and with these components. */
  function Show(rooted: bool, parts: seq<string>): (r: string)
    requires forall k :: 0 <= k < |parts| ==> Component(parts[k])
    ensures r != []
  {
    if parts == [] then (if rooted then "/" else ".")
    else
      assert Component(parts[0]);
      assert |Join(parts, '/')| >= |parts[0]| > 0;
      (if rooted then "/" else "") + Join(parts, '/')
  }

  /** Parsing what `str` writes gives the root and the components back. */
  lemma ShowParses(rooted: bool, parts: seq<string>)
    requires forall k :: 0 <= k < |parts| ==> Component(parts[k])
    ensures Rooted(Show(rooted, parts)) == rooted
    ensures Components(Show(rooted, parts)) == parts
  {
    if parts == [] {
      ShowParsesNone(rooted);
    } else if rooted {
      ShowParsesRooted(parts);
    } else {
      ShowParsesRelative(parts);
    }
  }

  /** `/` and `.` have no components. */
  lemma ShowParsesNone(rooted: bool)
    ensures Rooted(Show(rooted, [])) == rooted
    ensures Components(Show(rooted, [])) == []
  {
    if rooted {
      assert "/" == "" + ['/'] + "";
      SplitCons("", "", '/');
      assert Split("", '/') == [""];
      assert Kept(["", ""]) == [] by {
        assert ["", ""][1..] == [""];
        assert [""][1..] == [];
      }
    } else {
      SplitWhole(".", '/');
      assert Kept(["."]) == [] by {
        assert ["."][1..] == [];
      }
    }
  }

  lemma ShowParsesRooted(parts: seq<string>)
    requires parts != [] && forall k :: 0 <= k < |parts| ==> Component(parts[k])
    ensures Rooted(Show(true, parts)) && Components(Show(true, parts)) == parts
  {
    var joined := Join(parts, '/');
    assert Show(true, parts) == "" + ['/'] + joined;
    SplitJoin(parts, '/');
    KeptAll(parts);
    SplitCons("", joined, '/');
    KeptAppend([""], parts);
    assert Kept([""]) == [] by {
      assert [""][1..] == [];
    }
  }

  lemma ShowParsesRelative(parts: seq<string>)
    requires parts != [] && forall k :: 0 <= k < |parts| ==> Component(parts[k])
    ensures !Rooted(Show(false, parts)) && Components(Show(false, parts)) == parts
  {
    var joined := Join(parts, '/');
    SplitJoin(parts, '/');
    KeptAll(parts);
    assert Show(false, parts) == joined;
    assert Component(parts[0]);
    assert joined[0] == parts[0][0];
    assert parts[0][0] in parts[0];
  }

  /** A `PurePosixPath`: whether it has a root, and its components. Two
      paths are equal exactly when `pathlib` compares them equal. */
  datatype Path = Path(rooted: bool, parts: seq<string>)

  /** Every component is a proper one, as in any path `pathlib` builds. */
  predicate Wf(p: Path) {
    forall k :: 0 <= k < |p.parts| ==> Component(p.parts[k])
  }

  /** `Path("")` and `Path(".")`: the working directory. */
  const Dot := Path(false, [])

  /** `Path(s)`. */
  function Parse(s: string): (r: Path)
    ensures Wf(r)
    ensures r.rooted <==> Rooted(s)
  {
    Path(Rooted(s), Components(s))
  }

  /** `str(p)`: the root if any, then the components joined by `/`; `.`
      for a relative path with none. Parsing it gives `p` back. */
  function Str(p: Path): (r: string)
    requires Wf(p)
    ensures r != []
    ensures Parse(r) == p
  {
    ShowParses(p.rooted, p.parts);
    Show(p.rooted, p.parts)
  }

  /** `str(Path(p))`: the same path as `p`, written the one way `pathlib`
      writes it. */
  function Norm(p: string): (r: string)
    ensures r != []
    ensures Parse(r) == Parse(p)
  {
    Str(Parse(p))
  }

  /** Two strings name the same `Path` exactly when they normalise alike. */
  lemma SamePathSameNorm(p: string, q: string)
    ensures Parse(p) == Parse(q) <==> Norm(p) == Norm(q)
  {
    if Norm(p) == Norm(q) {
      assert Parse(Norm(p)) == Parse(Norm(q));
    }
  }

  /** Normalising twice changes nothing more. */
  lemma NormIdempotent(p: string)
    ensures Norm(Norm(p)) == Norm(p)
  {
  }

  /** A single component parses to itself, with or without a leading `./`. */
  lemma ParseComponent(name: string)
    requires Component(name)
    ensures Parse(name) == Path(false, [name]) && Parse("./" + name) == Parse(name)
    ensures Norm("./" + name) == name && Norm(name) == name
  {
    assert "./" + name == "." + ['/'] + name;
    SplitCons(".", name, '/');
    SplitWhole(name, '/');
    assert Kept([".", name]) == [name] by {
      assert [".", name][1..] == [name];
      assert [name][1..] == [];
    }
    assert Kept([name]) == [name] by {
      assert [name][1..] == [];
    }
    assert !Rooted(name) by {
      assert name[0] in name;
    }
    ShowParses(false, [name]);
  }

  /** `""` and `.` are the working directory; `..` is kept as a component. */
  lemma ParseDots()
    ensures Parse("") == Dot && Parse(".") == Dot && Parse("..") == Path(false, [".."])
  {
    assert Split("", '/') == [""];
    assert [""][1..] == [];
    SplitWhole(".", '/');
    assert ["."][1..] == [];
    SplitWhole("..", '/');
    assert [".."][1..] == [];
  }

  /** `p / q`: a `q` with a root replaces `p`; otherwise its components
      follow those of `p`. */
  function Div(p: Path, q: Path): (r: Path)
    ensures Wf(p) && Wf(q) ==> Wf(r)
    ensures r.rooted <==> p.rooted || q.rooted
    ensures |r.parts| <= |p.parts| + |q.parts|
  {
    if q.rooted then q else Path(p.rooted, p.parts + q.parts)
  }

  /** `Path(a) / b` is `Path(a + "/" + b)`: the operator joins the strings
      with a separator, and a `b` with a root replaces `a`. */
  lemma DivJoins(a: string, b: string)
    requires a != ""
    ensures Div(Parse(a), Parse(b)) == if Rooted(b) then Parse(b) else Parse(a + "/" + b)
  {
    if !Rooted(b) {
      assert a + "/" + b == a + ['/'] + b;
      SplitConcat(a, b, '/');
      KeptAppend(Split(a, '/'), Split(b, '/'));
      assert (a + "/" + b)[0] == a[0];
    }
  }

  /** `p.name`: the last component, or `""` when there is none. */
  function Name(p: Path): (r: string)
    ensures Wf(p) ==> r == "" || Component(r)
    ensures Wf(p) ==> (r == "" <==> p.parts == [])
  {
    if p.parts == [] then "" else p.parts[|p.parts| - 1]
  }

  /** `p.parent`: the path without its last component; a path with none is
      its own parent. Otherwise the parent joined with the name is `p`. */
  function Parent(p: Path): (r: Path)
    ensures Wf(p) ==> Wf(r)
    ensures r.rooted == p.rooted
    ensures p.parts == [] ==> r == p
    ensures p.parts != [] ==> Div(r, Path(false, [Name(p)])) == p && |r.parts| == |p.parts| - 1
  {
    if p.parts == [] then p
    else
      var r := Path(p.rooted, p.parts[..|p.parts| - 1]);
      assert r.parts + [Name(p)] == p.parts;
      r
  }

  /** A single component joined to a directory: that component is the
      name, the directory is the parent, and the result is the bare name
      exactly when the directory is `.`. */
  lemma DivChild(directory: Path, name: string)
    requires Component(name)
    ensures Name(Div(directory, Parse(name))) == name
    ensures Parent(Div(directory, Parse(name))) == directory
    ensures Div(directory, Parse(name)) == Parse(name) <==> directory == Dot
  {
    ParseComponent(name);
    var r := Div(directory, Parse(name));
    assert r.parts == directory.parts + [name];
    assert r.parts[..|r.parts| - 1] == directory.parts;
    if r == Parse(name) {
      assert |directory.parts| + 1 == 1;
    }
  }

  /** Splitting at one separator: the pieces of each side, in turn. */
  lemma {:induction false} SplitConcat(a: string, b: string, c: char)
    ensures Split(a + [c] + b, c) == Split(a, c) + Split(b, c)
    decreases |a|
  {
    if a == [] {
      assert a + [c] + b == [c] + b;
      assert ([c] + b)[1..] == b;
    } else {
      assert (a + [c] + b)[1..] == a[1..] + [c] + b;
      SplitConcat(a[1..], b, c);
    }
  }
}
