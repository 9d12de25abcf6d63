/**
  The query part of a URL as a list of "&key=value" parameters, and the
  parser that reads such a list back, as a receiver of the link does. The
  calendar link's properties are stated through this reading.
*/
module Query {
  import opened Wrappers

  datatype Param = Param(key: string, value: string)

  /** A parameter that can be read back: no '&' anywhere, no '=' in the key. */
  predicate Plain(p: Param)
  {
    '&' !in p.key && '=' !in p.key && '&' !in p.value
  }

  function RenderParam(p: Param): string
  {
    "&" + p.key + "=" + p.value
  }

  function RenderQuery(ps: seq<Param>): string
  {
    if ps == [] then "" else RenderParam(ps[0]) + RenderQuery(ps[1..])
  }

  /** Reads "&k1=v1&k2=v2…": a key runs to the first '=', a value to the next '&'. */
  function ParseQuery(q: string): Option<seq<Param>>
    decreases |q|, 0
  {
    if q == [] then Some([])
    else if q[0] != '&' then None
    else ParseKey(q[1..], "")
  }

  function ParseKey(s: string, key: string): Option<seq<Param>>
    decreases |s|, 2
  {
    if s == [] || s[0] == '&' then None
    else if s[0] == '=' then ParseValue(s[1..], key, "")
    else ParseKey(s[1..], key + [s[0]])
  }

  function ParseValue(s: string, key: string, value: string): Option<seq<Param>>
    decreases |s|, 1
  {
    if s == [] then Some([Param(key, value)])
    else if s[0] == '&' then
      match ParseQuery(s)
      case None => None
      case Some(rest) => Some([Param(key, value)] + rest)
    else ParseValue(s[1..], key, value + [s[0]])
  }

  /** The value of the first parameter named `key`. */
  function Lookup(ps: seq<Param>, key: string): (r: Option<string>)
    ensures r.Some? <==> exists i :: 0 <= i < |ps| && ps[i].key == key
  {
    if ps == [] then None
    else if ps[0].key == key then Some(ps[0].value)
    else
      var r := Lookup(ps[1..], key);
      assert forall i :: 1 <= i < |ps| ==> ps[i] == ps[1..][i - 1];
      r
  }

  // ------------------------------------------------------------ lemmas

  lemma {:induction false} RenderQueryAppend(a: seq<Param>, b: seq<Param>)
    ensures RenderQuery(a + b) == RenderQuery(a) + RenderQuery(b)
    decreases |a|
  {
    if a == [] {
      assert a + b == b;
    } else {
      RenderQueryAppend(a[1..], b);
      assert (a + b)[1..] == a[1..] + b;
    }
  }

  lemma {:induction false} ReadKey(key: string, tail: string, acc: string)
    requires '&' !in key && '=' !in key
    ensures ParseKey(key + "=" + tail, acc) == ParseValue(tail, acc + key, "")
    decreases |key|
  {
    if key == [] {
      assert key + "=" + tail == "=" + tail;
      assert acc + key == acc;
    } else {
      ReadKey(key[1..], tail, acc + [key[0]]);
      assert (key + "=" + tail)[1..] == key[1..] + "=" + tail;
      assert acc + [key[0]] + key[1..] == acc + key;
    }
  }

  lemma {:induction false} ReadValue(value: string, rest: string, key: string, acc: string)
    requires '&' !in value && (rest == [] || rest[0] == '&')
    ensures ParseValue(value + rest, key, acc) ==
            match ParseQuery(rest)
            case None => None
            case Some(ps) => Some([Param(key, acc + value)] + ps)
    decreases |value|
  {
    if value == [] {
      assert value + rest == rest && acc + value == acc;
      if rest == [] {
        assert [Param(key, acc)] + [] == [Param(key, acc)];
      }
    } else {
      ReadValue(value[1..], rest, key, acc + [value[0]]);
      assert (value + rest)[1..] == value[1..] + rest;
      assert acc + [value[0]] + value[1..] == acc + value;
    }
  }

  lemma ParseOne(p: Param, rest: string)
    requires Plain(p) && (rest == [] || rest[0] == '&')
    ensures ParseQuery(RenderParam(p) + rest) ==
            match ParseQuery(rest) case None => None case Some(ps) => Some([p] + ps)
  {
    var q := RenderParam(p) + rest;
    assert q[1..] == p.key + "=" + (p.value + rest);
    ReadKey(p.key, p.value + rest, "");
    assert "" + p.key == p.key;
    ReadValue(p.value, rest, p.key, "");
    assert "" + p.value == p.value;
  }

  /** Reading a rendered list of plain parameters gives the list back. */
  lemma {:induction false} ParseRenderQuery(ps: seq<Param>)
    requires forall i :: 0 <= i < |ps| ==> Plain(ps[i])
    ensures ParseQuery(RenderQuery(ps)) == Some(ps)
    decreases |ps|
  {
    if ps != [] {
      ParseRenderQuery(ps[1..]);
      ParseOne(ps[0], RenderQuery(ps[1..]));
      assert [ps[0]] + ps[1..] == ps;
    }
  }

  lemma LookupAppend(a: seq<Param>, b: seq<Param>, key: string)
    ensures Lookup(a + b, key) == if Lookup(a, key).Some? then Lookup(a, key) else Lookup(b, key)
    decreases |a|
  {
    if a == [] {
      assert a + b == b;
    } else {
      LookupAppend(a[1..], b, key);
      assert (a + b)[1..] == a[1..] + b;
    }
  }
}
