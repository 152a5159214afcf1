/**
 * Python's printf-style `%` operator on strings, for the fragment the session
 * engine uses: the plain `%s` conversion of string arguments and the `%%`
 * escape. Every other use of `%` is reported as None, as is an argument left
 * over at the end. Python raises on all of these when no argument is left,
 * except when flags, a width, a precision or an `h`/`l`/`L` modifier stand
 * between two `%`; conversions other than plain `%s` applied to an argument
 * (`%r`, `%c`, `%5s`, ...) are not modelled, and no template of the session
 * uses one.
 */
module PercentFormat {
  import opened Wrappers

  /** Put `p` in front of a formatted text; a failure stays a failure. */
  function Prepend(p: string, r: Option<string>): Option<string> {
    if r.None? then None else Some(p + r.value)
  }

  /** `fmt % tuple(args)` in Python, with string arguments. */
  function Format(fmt: string, args: seq<string>): Option<string>
    decreases |fmt|
  {
    if fmt == [] then (if args == [] then Some([]) else None)
    else if fmt[0] != '%' then Prepend([fmt[0]], Format(fmt[1..], args))
    else if |fmt| == 1 then None
    else if fmt[1] == '%' then Prepend("%", Format(fmt[2..], args))
    else if fmt[1] == 's' && args != [] then Prepend(args[0], Format(fmt[2..], args[1..]))
    else None
  }

  /** Text without `%` passes through formatting unchanged, with its arguments
      still to be matched by what follows. */
  lemma {:induction false} FormatPrefix(p: string, rest: string, args: seq<string>)
    requires '%' !in p
    ensures Format(p + rest, args) == Prepend(p, Format(rest, args))
    decreases |p|
  {
    if p == [] {
      assert p + rest == rest;
      if Format(rest, args).Some? {
        assert p + Format(rest, args).value == Format(rest, args).value;
      }
    } else {
      assert p[0] in p;
      assert (p + rest)[0] == p[0] && (p + rest)[1..] == p[1..] + rest;
      FormatPrefix(p[1..], rest, args);
      var r := Format(rest, args);
      if r.Some? {
        calc {
          Format(p + rest, args);
          Prepend([p[0]], Format(p[1..] + rest, args));
          Prepend([p[0]], Some(p[1..] + r.value));
          { assert [p[0]] + (p[1..] + r.value) == p + r.value; }
          Some(p + r.value);
        }
      }
    }
  }

  /** A `%s` hands over the next argument verbatim, whatever it contains. */
  lemma Substitute(p: string, arg: string, rest: string, args: seq<string>)
    requires '%' !in p
    ensures Format(p + "%s" + rest, [arg] + args) == Prepend(p + arg, Format(rest, args))
  {
    var t := "%s" + rest;
    assert p + "%s" + rest == p + t;
    FormatPrefix(p, t, [arg] + args);
    assert t[0] == '%' && t[1] == 's' && t[2..] == rest;
    assert ([arg] + args)[1..] == args;
    assert Format(t, [arg] + args) == Prepend(arg, Format(rest, args));
    if Format(rest, args).Some? {
      assert p + (arg + Format(rest, args).value) == p + arg + Format(rest, args).value;
    }
  }

  /** With no arguments, a text without `%` formats to itself. */
  lemma FormatPlain(s: string)
    requires '%' !in s
    ensures Format(s, []) == Some(s)
  {
    FormatPrefix(s, [], []);
    assert s + [] == s;
    assert Format([], []) == Some([]);
  }

  /** A template with one `%s` and no other `%`. */
  lemma FormatOne(p: string, arg: string, q: string)
    requires '%' !in p && '%' !in q
    ensures Format(p + "%s" + q, [arg]) == Some(p + arg + q)
  {
    assert [arg] + [] == [arg];
    Substitute(p, arg, q, []);
    FormatPlain(q);
    assert p + arg + q == (p + arg) + q;
  }

  /** A template with two `%s` and no other `%`. */
  lemma FormatTwo(p: string, a: string, m: string, b: string, q: string)
    requires '%' !in p && '%' !in m && '%' !in q
    ensures Format(p + "%s" + m + "%s" + q, [a, b]) == Some(p + a + m + b + q)
  {
    assert p + "%s" + m + "%s" + q == p + "%s" + (m + "%s" + q);
    assert [a] + [b] == [a, b];
    Substitute(p, a, m + "%s" + q, [b]);
    FormatOne(m, b, q);
    assert p + a + (m + b + q) == p + a + m + b + q;
  }

  /** Formatting without arguments never lengthens the text, and shortens it
      whenever the text holds a `%` (a `%%` becomes one `%`). */
  lemma {:induction false} FormatShrinks(s: string)
    requires Format(s, []).Some?
    ensures |Format(s, []).value| <= |s|
    ensures '%' in s ==> |Format(s, []).value| < |s|
    decreases |s|
  {
    if s != [] {
      if s[0] != '%' {
        FormatShrinks(s[1..]);
        assert s == [s[0]] + s[1..];
      } else {
        FormatShrinks(s[2..]);
      }
    }
  }

  /** Formatting without arguments leaves a text unchanged exactly when the
      text contains no `%`. */
  lemma FormatUnchangedIff(s: string)
    ensures Format(s, []) == Some(s) <==> '%' !in s
  {
    if '%' !in s {
      FormatPlain(s);
    } else if Format(s, []).Some? {
      FormatShrinks(s);
    }
  }
}
