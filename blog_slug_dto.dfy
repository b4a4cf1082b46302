/** `BlogSlugDto`: the validation the blog route applies to its `:slug` parameter before the
    blog service sees it. Each decorator is one constraint; the validation pipe refuses the
    request with 400 Bad Request when any of them fails. */
module BlogSlugDto {
  import opened Js

  const MaxSlugLength := 100

  datatype Constraint = IsString | MaxLength | Matches

  const BadRequest := 400

  /** A character of the class `[a-z0-9-]`. */
  predicate SlugChar(c: char)
  {
    ('a' <= c <= 'z') || ('0' <= c <= '9') || c == '-'
  }

  /** `/^[a-z0-9-]+$/.test(s)` */
  predicate MatchesSlugPattern(s: string)
  {
    |s| > 0 && forall i :: 0 <= i < |s| ==> SlugChar(s[i])
  }

  /** The constraints a value violates. Like class-validator, `MaxLength` and `Matches` fail
      on anything that is not a string. */
  function Violations(v: Value): (errs: set<Constraint>)
    ensures errs == {} <==> v.Str? && 0 < |v.s| <= MaxSlugLength && MatchesSlugPattern(v.s)
    ensures !v.Str? ==> errs == {IsString, MaxLength, Matches}
    ensures v.Str? && |v.s| > MaxSlugLength ==> MaxLength in errs
  {
    (if v.Str? then {} else {IsString}) +
    (if v.Str? && |v.s| <= MaxSlugLength then {} else {MaxLength}) +
    (if v.Str? && MatchesSlugPattern(v.s) then {} else {Matches})
  }

  /** The status the validation pipe answers with, or none when the slug is accepted. */
  function PipeStatus(v: Value): (status: Option<int>)
    ensures status.None? <==> Violations(v) == {}
    ensures Violations(v) != {} ==> status == Some(BadRequest)
  {
    if Violations(v) == {} then None else Some(BadRequest)
  }

  predicate Accepts(slug: string)
  {
    Violations(Str(slug)) == {}
  }

  /** An accepted slug is one path segment without dots or separators, and it does not start
      with a dot. */
  lemma {:induction false} AcceptedSlugIsPlainSegment(slug: string)
    requires Accepts(slug)
    ensures 0 < |slug| <= MaxSlugLength
    ensures '.' !in slug && '/' !in slug && '\\' !in slug
    ensures slug[0] != '.' && slug != ".."
  {
    assert MatchesSlugPattern(slug);
    forall i | 0 <= i < |slug| ensures slug[i] != '.' && slug[i] != '/' && slug[i] != '\\' {
      assert SlugChar(slug[i]);
    }
  }

  /** The two hostile inputs exercised against the site are refused with 400 Bad Request. */
  lemma HostileSlugsRefused()
    ensures PipeStatus(Str("test<script>alert(1)</script>")) == Some(BadRequest)
    ensures PipeStatus(Str("../../../etc/passwd")) == Some(BadRequest)
  {
    var a := "test<script>alert(1)</script>";
    assert !SlugChar(a[4]);
    var b := "../../../etc/passwd";
    assert !SlugChar(b[0]);
  }
}
