/**
 Python's `str.format` with keyword arguments, for templates whose only
 markup is named replacement fields such as `{index}`. A template is kept as
 the sequence of its literal runs and fields; formatting puts each field's
 value in verbatim, so braces inside a value are never read as fields.
 */
module Template {

  /** A literal run of template text, or a replacement field `{name}`. */
  datatype Segment = Lit(text: string) | Field(name: string)

  /** Every replacement field of `t` has a value in `env`; otherwise Python
      raises `KeyError`. */
  predicate Binds(t: seq<Segment>, env: map<string, string>)
  {
    forall i :: 0 <= i < |t| && t[i].Field? ==> t[i].name in env
  }

  /** `template.format(**env)`. */
  function Format(t: seq<Segment>, env: map<string, string>): string
    requires Binds(t, env)
  {
    if t == [] then []
    else
      (match t[0] case Lit(text) => text case Field(name) => env[name])
      + Format(t[1..], env)
  }

  /** A literal run followed by a field puts the field's value right after
      the run. */
  lemma FormatStep(a: string, x: string, t: seq<Segment>, env: map<string, string>)
    requires x in env && Binds(t, env)
    ensures Binds([Lit(a), Field(x)] + t, env)
    ensures Format([Lit(a), Field(x)] + t, env) == a + env[x] + Format(t, env)
  {
    var u := [Lit(a), Field(x)] + t;
    assert u[1..][1..] == t;
  }

  lemma FormatLit(a: string, env: map<string, string>)
    ensures Binds([Lit(a)], env) && Format([Lit(a)], env) == a
  {
    assert [Lit(a)][1..] == [];
  }

  /** A template of three fields between four literal runs puts each value
      verbatim between its neighbouring runs. */
  lemma FormatThreeFields(a: string, x: string, b: string, y: string, c: string, z: string, d: string,
                          env: map<string, string>)
    requires x in env && y in env && z in env
    ensures Binds([Lit(a), Field(x), Lit(b), Field(y), Lit(c), Field(z), Lit(d)], env)
    ensures Format([Lit(a), Field(x), Lit(b), Field(y), Lit(c), Field(z), Lit(d)], env)
            == a + env[x] + b + env[y] + c + env[z] + d
  {
    FormatLit(d, env);
    FormatStep(c, z, [Lit(d)], env);
    FormatStep(b, y, [Lit(c), Field(z)] + [Lit(d)], env);
    FormatStep(a, x, [Lit(b), Field(y)] + ([Lit(c), Field(z)] + [Lit(d)]), env);
    assert [Lit(a), Field(x)] + ([Lit(b), Field(y)] + ([Lit(c), Field(z)] + [Lit(d)]))
        == [Lit(a), Field(x), Lit(b), Field(y), Lit(c), Field(z), Lit(d)];
  }

  /** The same for four fields between five literal runs. */
  lemma FormatFourFields(a: string, w: string, b: string, x: string, c: string, y: string, d: string,
                         z: string, e: string, env: map<string, string>)
    requires w in env && x in env && y in env && z in env
    ensures Binds([Lit(a), Field(w), Lit(b), Field(x), Lit(c), Field(y), Lit(d), Field(z), Lit(e)], env)
    ensures Format([Lit(a), Field(w), Lit(b), Field(x), Lit(c), Field(y), Lit(d), Field(z), Lit(e)], env)
            == a + env[w] + b + env[x] + c + env[y] + d + env[z] + e
  {
    var t3 := [Lit(e)];
    FormatLit(e, env);
    var t2 := [Lit(d), Field(z)] + t3;
    FormatStep(d, z, t3, env);
    var t1 := [Lit(c), Field(y)] + t2;
    FormatStep(c, y, t2, env);
    assert Format(t1, env) == c + env[y] + (d + env[z] + e);
    var t0 := [Lit(b), Field(x)] + t1;
    FormatStep(b, x, t1, env);
    var t := [Lit(a), Field(w)] + t0;
    FormatStep(a, w, t0, env);
    assert Format(t, env) == a + env[w] + (b + env[x] + (c + env[y] + (d + env[z] + e)));
    assert t == [Lit(a), Field(w), Lit(b), Field(x), Lit(c), Field(y), Lit(d), Field(z), Lit(e)];
  }
}
