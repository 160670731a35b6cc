/** An HTTP request as the cookie-minimisation procedure sees it: the ordered
    list of parameters that the host's request analyser extracts from it.
    Removing a parameter from a request is deletion from that list; everything
    else about the request (method, other headers, body) is left out because
    the procedure never looks at it. */
module Requests {

  /** The type tags of the host's parameter analyser; only Cookie matters here. */
  datatype ParamType = Url | Body | Cookie | Xml | XmlAttr | MultipartAttr | Json

  datatype Parameter = Parameter(name: string, value: string, kind: ParamType)

  /** A request, abstracted to its parameters in the order they appear. */
  type Request = seq<Parameter>

  /** `a` can be obtained from `b` by deleting elements, keeping the order. */
  predicate Subsequence<T(==)>(a: seq<T>, b: seq<T>)
    decreases |b|
  {
    a == [] || (b != [] && ((a[0] == b[0] && Subsequence(a[1..], b[1..])) || Subsequence(a, b[1..])))
  }

  /** The cookie parameters of a request, in the order they appear. */
  function CookiesOf(ps: Request): (cs: seq<Parameter>)
    ensures forall i :: 0 <= i < |cs| ==> cs[i].kind == Cookie
  {
    if ps == [] then []
    else if ps[0].kind == Cookie then [ps[0]] + CookiesOf(ps[1..])
    else CookiesOf(ps[1..])
  }

  /** The names of a list of parameters. */
  function NamesOf(ps: seq<Parameter>): set<string>
  {
    set p | p in ps :: p.name
  }

  /** The host's parameter removal: every parameter with the same name and type
      as `p` is taken out of the request; the rest keeps its order. */
  function Remove(ps: Request, p: Parameter): Request
  {
    if ps == [] then []
    else if ps[0].name == p.name && ps[0].kind == p.kind then Remove(ps[1..], p)
    else [ps[0]] + Remove(ps[1..], p)
  }

  /** The request with every cookie whose name is in `gone` taken out. */
  function Strip(ps: Request, gone: set<string>): Request
  {
    if ps == [] then []
    else if ps[0].kind == Cookie && ps[0].name in gone then Strip(ps[1..], gone)
    else [ps[0]] + Strip(ps[1..], gone)
  }

  /** The cookie list keeps the request's order. */
  lemma {:induction false} CookiesOfSubsequence(ps: Request)
    ensures Subsequence(CookiesOf(ps), ps)
  {
    if ps != [] {
      CookiesOfSubsequence(ps[1..]);
      CookiesOfMembers(ps[1..]);
      if ps[0].kind != Cookie && CookiesOf(ps) != [] {
        assert CookiesOf(ps)[0] in CookiesOf(ps[1..]);
      }
    }
  }

  /** Removal keeps the order of what is left. */
  lemma {:induction false} RemoveSubsequence(ps: Request, p: Parameter)
    ensures Subsequence(Remove(ps, p), ps)
  {
    if ps != [] {
      RemoveSubsequence(ps[1..], p);
      RemoveMembers(ps[1..], p);
      if ps[0].name == p.name && ps[0].kind == p.kind && Remove(ps, p) != [] {
        assert Remove(ps, p)[0] in Remove(ps[1..], p);
      }
    }
  }

  /** Stripping keeps the order of what is left. */
  lemma {:induction false} StripSubsequence(ps: Request, gone: set<string>)
    ensures Subsequence(Strip(ps, gone), ps)
  {
    if ps != [] {
      StripSubsequence(ps[1..], gone);
      StripMembers(ps[1..], gone);
      if ps[0].kind == Cookie && ps[0].name in gone && Strip(ps, gone) != [] {
        assert Strip(ps, gone)[0] in Strip(ps[1..], gone);
      }
    }
  }

  /** The cookie list holds every cookie of the request and nothing else. */
  lemma {:induction false} CookiesOfMembers(ps: Request)
    ensures forall q :: q in CookiesOf(ps) <==> q in ps && q.kind == Cookie
  {
    if ps != [] {
      CookiesOfMembers(ps[1..]);
      assert forall q :: q in ps <==> q == ps[0] || q in ps[1..];
    }
  }

  /** Removal takes out exactly the parameters of that name and type. */
  lemma {:induction false} RemoveMembers(ps: Request, p: Parameter)
    ensures forall q :: q in Remove(ps, p) <==> q in ps && !(q.name == p.name && q.kind == p.kind)
  {
    if ps != [] {
      RemoveMembers(ps[1..], p);
      assert forall q :: q in ps <==> q == ps[0] || q in ps[1..];
    }
  }

  /** Stripping takes out exactly the cookies with a name in `gone`. */
  lemma {:induction false} StripMembers(ps: Request, gone: set<string>)
    ensures forall q :: q in Strip(ps, gone) <==> q in ps && !(q.kind == Cookie && q.name in gone)
  {
    if ps != [] {
      StripMembers(ps[1..], gone);
      assert forall q :: q in ps <==> q == ps[0] || q in ps[1..];
    }
  }

  /** The request with every cookie taken out: what the no-cookie request is. */
  function NoCookies(ps: Request): Request
  {
    Strip(ps, NamesOf(CookiesOf(ps)))
  }

  /** Filtering out cookies distributes over concatenation: together with its
      value on one parameter this determines CookiesOf completely. */
  lemma {:induction false} CookiesOfAppend(a: Request, b: Request)
    ensures CookiesOf(a + b) == CookiesOf(a) + CookiesOf(b)
  {
    if a != [] {
      assert (a + b)[0] == a[0];
      assert (a + b)[1..] == a[1..] + b;
      CookiesOfAppend(a[1..], b);
      if a[0].kind == Cookie {
        calc {
          CookiesOf(a + b);
          [a[0]] + CookiesOf(a[1..] + b);
          [a[0]] + (CookiesOf(a[1..]) + CookiesOf(b));
          ([a[0]] + CookiesOf(a[1..])) + CookiesOf(b);
        }
      }
    } else {
      assert a + b == b;
    }
  }

  /** Removing a cookie is stripping its name. */
  lemma {:induction false} RemoveCookieIsStrip(ps: Request, p: Parameter)
    requires p.kind == Cookie
    ensures Remove(ps, p) == Strip(ps, {p.name})
  {
    if ps != [] {
      RemoveCookieIsStrip(ps[1..], p);
    }
  }

  /** Removals accumulate: stripping twice is stripping the union. */
  lemma {:induction false} StripStrip(ps: Request, a: set<string>, b: set<string>)
    ensures Strip(Strip(ps, a), b) == Strip(ps, a + b)
  {
    if ps != [] {
      StripStrip(ps[1..], a, b);
      if !(ps[0].kind == Cookie && ps[0].name in a) {
        assert Strip(ps, a) == [ps[0]] + Strip(ps[1..], a);
        assert Strip(ps, a)[1..] == Strip(ps[1..], a);
      }
    }
  }

  /** The cookies left after stripping are the original cookies, stripped. */
  lemma {:induction false} CookiesOfStrip(ps: Request, gone: set<string>)
    ensures CookiesOf(Strip(ps, gone)) == Strip(CookiesOf(ps), gone)
  {
    if ps != [] {
      CookiesOfStrip(ps[1..], gone);
      if !(ps[0].kind == Cookie && ps[0].name in gone) {
        assert Strip(ps, gone)[1..] == Strip(ps[1..], gone);
      }
      if ps[0].kind == Cookie {
        assert CookiesOf(ps)[1..] == CookiesOf(ps[1..]);
      }
    }
  }

  /** The no-cookie request carries no cookie and every other parameter of the
      original request, in the original order. */
  lemma NoCookiesHasNone(ps: Request)
    ensures CookiesOf(NoCookies(ps)) == []
    ensures Subsequence(NoCookies(ps), ps)
    ensures forall q: Parameter :: q.kind != Cookie ==> (q in NoCookies(ps) <==> q in ps)
  {
    CookiesOfMembers(ps);
    StripMembers(ps, NamesOf(CookiesOf(ps)));
    StripSubsequence(ps, NamesOf(CookiesOf(ps)));
    var cs := CookiesOf(ps);
    CookiesOfStrip(ps, NamesOf(cs));
    forall i | 0 <= i < |cs|
      ensures cs[i].name in NamesOf(cs)
    {
      assert cs[i] in cs;
    }
    StripAll(cs, NamesOf(cs));
  }

  /** Stripping every name of a cookie list leaves nothing. */
  lemma {:induction false} StripAll(cs: seq<Parameter>, gone: set<string>)
    requires forall i :: 0 <= i < |cs| ==> cs[i].kind == Cookie && cs[i].name in gone
    ensures Strip(cs, gone) == []
  {
    if cs != [] {
      StripAll(cs[1..], gone);
    }
  }

  /** Removing the cookies of a list one at a time, as the no-cookie request is
      built, strips all of their names. */
  method RemoveEach(ps: Request, cs: seq<Parameter>) returns (r: Request)
    requires forall i :: 0 <= i < |cs| ==> cs[i].kind == Cookie
    ensures r == Strip(ps, NamesOf(cs))
  {
    r := ps;
    var j := 0;
    StripStrip(ps, {}, {});
    assert Strip(ps, {}) == ps by { StripNone(ps); }
    assert NamesOf(cs[..0]) == {};
    while j < |cs|
      invariant 0 <= j <= |cs|
      invariant r == Strip(ps, NamesOf(cs[..j]))
    {
      RemoveCookieIsStrip(r, cs[j]);
      StripStrip(ps, NamesOf(cs[..j]), {cs[j].name});
      assert cs[..j + 1] == cs[..j] + [cs[j]];
      assert NamesOf(cs[..j + 1]) == NamesOf(cs[..j]) + {cs[j].name};
      r := Remove(r, cs[j]);
      j := j + 1;
    }
    assert cs[..j] == cs;
  }

  lemma {:induction false} StripNone(ps: Request)
    ensures Strip(ps, {}) == ps
  {
    if ps != [] {
      StripNone(ps[1..]);
    }
  }
}
