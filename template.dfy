/**
  Log-line templates (`parse_and_format_log`): a template is copied character
  by character, and each `{name}` in it is replaced by the level, time, file or
  message text it names. Any other name expands to nothing, and a `{` that is
  never closed drops everything after it.

  `Render` states the meaning of a template by reading it from the front;
  `ParseAndFormatLog` is the source's single left-to-right pass with its
  mutable result, placeholder flag and placeholder buffer, proved to compute
  `Render`.
 */
module Template {

  import opened Wrappers

  /** The four values a template can name. */
  datatype Fields = Fields(level: string, time: string, file: string, message: string)

  /** What the placeholder `{name}` expands to (the `match` on the collected name). */
  function Lookup(name: string, f: Fields): string {
    if name == "level" then f.level
    else if name == "time" then f.time
    else if name == "file" then f.file
    else if name == "message" then f.message
    else []
  }

  /** A placeholder expands to one of the four values or to nothing, and only
      the four names `level`, `time`, `file` and `message` expand to anything. */
  lemma LookupSelects(name: string, f: Fields)
    ensures var r := Lookup(name, f);
            r == f.level || r == f.time || r == f.file || r == f.message || r == []
    ensures Lookup(name, f) != [] ==> name in {"level", "time", "file", "message"}
  {
  }

  /** `s` has no occurrence of `c`. */
  predicate Lacks(s: string, c: char) {
    forall k :: 0 <= k < |s| ==> s[k] != c
  }

  /** The position of the first `c` in `s`, if there is one. */
  function IndexOf(s: string, c: char): (r: Option<nat>)
    ensures r.None? ==> Lacks(s, c)
    ensures r.Some? ==> r.value < |s| && s[r.value] == c && Lacks(s[..r.value], c)
  {
    if s == [] then None
    else if s[0] == c then Some(0)
    else match IndexOf(s[1..], c)
      case None => None
      case Some(j) =>
        assert s[..j + 1] == [s[0]] + s[1..][..j];
        Some(j + 1)
  }

  /** The line a template renders to: characters other than `{` are copied;
      `{name}` up to the first following `}` becomes `Lookup(name, f)`; a `{`
      with no `}` after it ends the line. */
  function Render(s: string, f: Fields): string
    decreases |s|
  {
    if s == [] then []
    else if s[0] != '{' then [s[0]] + Render(s[1..], f)
    else match IndexOf(s[1..], '}')
      case None => []
      case Some(j) => Lookup(s[1..j + 1], f) + Render(s[j + 2..], f)
  }

  /** A template in which every `{` has a `}` after it. */
  predicate Closed(s: string)
    decreases |s|
  {
    if s == [] then true
    else if s[0] != '{' then Closed(s[1..])
    else match IndexOf(s[1..], '}')
      case None => false
      case Some(j) => Closed(s[j + 2..])
  }

  /** The first `c` in `p + q` is the first in `p` when `p` has one. */
  lemma IndexOfPrefix(p: string, q: string, c: char)
    requires IndexOf(p, c).Some?
    ensures IndexOf(p + q, c) == IndexOf(p, c)
  {
    var j := IndexOf(p, c).value;
    assert (p + q)[j] == c;
    assert (p + q)[..j] == p[..j];
  }

  /** Rendering a closed prefix and the rest separately gives the same line. */
  lemma {:induction false} RenderAppend(p: string, q: string, f: Fields)
    requires Closed(p)
    ensures Render(p + q, f) == Render(p, f) + Render(q, f)
    decreases |p|
  {
    if p == [] {
      assert p + q == q;
    } else if p[0] != '{' {
      RenderAppendLiteral(p, q, f);
    } else {
      RenderAppendPlaceholder(p, q, f);
    }
  }

  /** `RenderAppend` when the prefix starts with a literal character. */
  lemma {:induction false} RenderAppendLiteral(p: string, q: string, f: Fields)
    requires Closed(p) && p != [] && p[0] != '{'
    ensures Render(p + q, f) == Render(p, f) + Render(q, f)
    decreases |p|, 0
  {
    var s := p + q;
    assert s[0] == p[0] && s[1..] == p[1..] + q;
    RenderAppend(p[1..], q, f);
  }

  /** `RenderAppend` when the prefix starts with a closed placeholder. */
  lemma {:induction false} RenderAppendPlaceholder(p: string, q: string, f: Fields)
    requires Closed(p) && p != [] && p[0] == '{'
    ensures Render(p + q, f) == Render(p, f) + Render(q, f)
    decreases |p|, 0
  {
    var s := p + q;
    var j := IndexOf(p[1..], '}').value;
    assert s[1..] == p[1..] + q;
    IndexOfPrefix(p[1..], q, '}');
    var name, rest := p[1..j + 1], p[j + 2..];
    assert s[1..j + 1] == name && s[j + 2..] == rest + q;
    RenderAtBrace(p, j, f);
    RenderAtBrace(s, j, f);
    RenderAppend(rest, q, f);
  }

  /** How `Render` reads a template that starts with a closed placeholder. */
  lemma RenderAtBrace(s: string, j: nat, f: Fields)
    requires s != [] && s[0] == '{' && IndexOf(s[1..], '}') == Some(j)
    ensures Render(s, f) == Lookup(s[1..j + 1], f) + Render(s[j + 2..], f)
  {
  }

  /** A closed prefix followed by a closed rest is closed. */
  lemma {:induction false} ClosedAppend(p: string, q: string)
    requires Closed(p) && Closed(q)
    ensures Closed(p + q)
    decreases |p|
  {
    var s := p + q;
    if p == [] {
      assert s == q;
    } else if p[0] != '{' {
      assert s[0] == p[0] && s[1..] == p[1..] + q;
      ClosedAppend(p[1..], q);
    } else {
      var j := IndexOf(p[1..], '}').value;
      assert s[0] == p[0] && s[1..] == p[1..] + q;
      IndexOfPrefix(p[1..], q, '}');
      assert s[j + 2..] == p[j + 2..] + q;
      ClosedAppend(p[j + 2..], q);
    }
  }

  /** A complete placeholder `{name}` renders to what the name looks up. */
  lemma RenderPlaceholder(name: string, f: Fields)
    requires Lacks(name, '}')
    ensures Closed("{" + name + "}")
    ensures Render("{" + name + "}", f) == Lookup(name, f)
  {
    var s := "{" + name + "}";
    assert s[1..] == name + "}";
    assert IndexOf(name + "}", '}') == Some(|name|) by {
      assert (name + "}")[|name|] == '}';
      assert (name + "}")[..|name|] == name;
    }
    assert s[|name| + 2..] == [];
    assert s[1..|name| + 1] == name;
  }

  /** An opening brace with no closing brace after it renders to nothing. */
  lemma RenderDangling(t: string, f: Fields)
    requires Lacks(t, '}')
    ensures Render("{" + t, f) == []
  {
    var s := "{" + t;
    assert s[1..] == t;
  }

  /** A template without `{` is returned unchanged, `}` characters included. */
  lemma {:induction false} RenderLiteral(s: string, f: Fields)
    requires Lacks(s, '{')
    ensures Closed(s)
    ensures Render(s, f) == s
    decreases |s|
  {
    if s != [] {
      assert s[0] != '{';
      assert Lacks(s[1..], '{');
      RenderLiteral(s[1..], f);
    }
  }

  /** Reading a whole placeholder after a closed prefix appends what its name looks up. */
  lemma ExtendByPlaceholder(prefix: string, name: string, f: Fields)
    requires Closed(prefix) && Lacks(name, '}')
    ensures Closed(prefix + ("{" + name + "}"))
    ensures Render(prefix + ("{" + name + "}"), f) == Render(prefix, f) + Lookup(name, f)
  {
    RenderPlaceholder(name, f);
    RenderAppend(prefix, "{" + name + "}", f);
    ClosedAppend(prefix, "{" + name + "}");
  }

  /** Reading one character other than `{` after a closed prefix appends that character. */
  lemma ExtendByLiteral(prefix: string, c: char, f: Fields)
    requires Closed(prefix) && c != '{'
    ensures Closed(prefix + [c])
    ensures Render(prefix + [c], f) == Render(prefix, f) + [c]
  {
    RenderLiteral([c], f);
    RenderAppend(prefix, [c], f);
    ClosedAppend(prefix, [c]);
  }

  /** A placeholder still open at the end adds nothing after a closed prefix. */
  lemma EndInPlaceholder(prefix: string, t: string, f: Fields)
    requires Closed(prefix) && Lacks(t, '}')
    ensures Render(prefix + ("{" + t), f) == Render(prefix, f)
  {
    RenderDangling(t, f);
    RenderAppend(prefix, "{" + t, f);
  }

  /** Literal text, then a placeholder: the text is copied and the placeholder
      replaced by exactly the field it names, or by nothing for any other name. */
  lemma RenderSubstitutes(lit: string, name: string, rest: string, f: Fields)
    requires Lacks(lit, '{') && Lacks(name, '}')
    ensures Render(lit + ("{" + name + "}") + rest, f) == lit + Lookup(name, f) + Render(rest, f)
  {
    RenderLiteral(lit, f);
    ExtendByPlaceholder(lit, name, f);
    RenderAppend(lit + ("{" + name + "}"), rest, f);
  }

  /** Literal text, then an unterminated `{...`: neither the brace nor what
      follows it appears in the line. */
  lemma RenderDropsUnterminated(lit: string, t: string, f: Fields)
    requires Lacks(lit, '{') && Lacks(t, '}')
    ensures Render(lit + ("{" + t), f) == lit
  {
    RenderLiteral(lit, f);
    EndInPlaceholder(lit, t, f);
  }

  /** One step of the pass: a literal character read after a closed prefix. */
  lemma StepLiteral(s: string, i: nat, f: Fields)
    requires i < |s| && s[i] != '{' && Closed(s[..i])
    ensures Closed(s[..i + 1]) && Render(s[..i + 1], f) == Render(s[..i], f) + [s[i]]
  {
    assert s[..i + 1] == s[..i] + [s[i]];
    ExtendByLiteral(s[..i], s[i], f);
  }

  /** One step of the pass: the `}` that closes the placeholder opened at `start`. */
  lemma StepClose(s: string, start: nat, i: nat, name: string, f: Fields)
    requires start < i < |s| && s[start] == '{' && s[start + 1..i] == name && s[i] == '}'
    requires Lacks(name, '}') && Closed(s[..start])
    ensures Closed(s[..i + 1]) && Render(s[..i + 1], f) == Render(s[..start], f) + Lookup(name, f)
  {
    assert s[..i + 1] == s[..start] + ("{" + name + "}");
    ExtendByPlaceholder(s[..start], name, f);
  }

  /** The end of the pass while a placeholder opened at `start` is still open. */
  lemma StepEndOpen(s: string, start: nat, name: string, f: Fields)
    requires start < |s| && s[start] == '{' && s[start + 1..] == name
    requires Lacks(name, '}') && Closed(s[..start])
    ensures Render(s, f) == Render(s[..start], f)
  {
    assert s == s[..start] + ("{" + name);
    EndInPlaceholder(s[..start], name, f);
  }

  /** `parse_and_format_log`: one pass over the template that copies literal
      characters into `result`, collects a placeholder name between `{` and `}`,
      and appends the named field when the `}` arrives. */
  method ParseAndFormatLog(formatStr: string, level: string, time: string, file: string, message: string)
    returns (result: string)
    ensures result == Render(formatStr, Fields(level, time, file, message))
  {
    var f := Fields(level, time, file, message);
    result := [];
    var inPlaceholder := false;
    var placeholder: string := [];
    // Where the placeholder being collected starts (its `{`), or else how far the template has been read.
    ghost var start := 0;
    for i := 0 to |formatStr|
      invariant start <= i
      invariant !inPlaceholder ==> start == i && placeholder == []
      invariant inPlaceholder ==> start < i && formatStr[start] == '{' && formatStr[start + 1..i] == placeholder
      invariant Lacks(placeholder, '}')
      invariant Closed(formatStr[..start])
      invariant result == Render(formatStr[..start], f)
    {
      var c := formatStr[i];
      if inPlaceholder {
        if c == '}' {
          StepClose(formatStr, start, i, placeholder, f);
          inPlaceholder := false;
          result := result + Lookup(placeholder, f);
          placeholder := [];
          start := i + 1;
        } else {
          assert formatStr[start + 1..i + 1] == placeholder + [c];
          placeholder := placeholder + [c];
        }
      } else if c == '{' {
        inPlaceholder := true;
      } else {
        StepLiteral(formatStr, i, f);
        result := result + [c];
        start := i + 1;
      }
    }
    if inPlaceholder {
      StepEndOpen(formatStr, start, placeholder, f);
    } else {
      assert formatStr[..start] == formatStr;
    }
  }
}
