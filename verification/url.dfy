/** The store page address of a package: `form_playstore_url`, and a
    reader that takes such an address apart again. */
module PlayUrl {
  import opened Wrappers
  import opened Text

  const BaseUrl: string := "https://play.google.com/store/apps/details?id="

  /** A query field `<key>=<value>`. */
  function Field(key: string, value: string): string {
    key + "=" + value
  }

  /** The optional query parameter `&<key>=<value>`, absent for an empty
      value. */
  function Param(key: string, value: string): (p: string)
    ensures value == [] ==> p == []
    ensures value != [] ==> |p| == |key| + 2 + |value| && p[0] == '&'
    ensures value != [] ==> p[1..|key| + 1] == key && p[|key| + 1] == '=' && p[|key| + 2..] == value
  {
    if value == [] then [] else ['&'] + Field(key, value)
  }

  /** `form_playstore_url(pkg, language, region)`: the base address and the
      package, then the region as `gl` when it is non-empty, then the
      language as `hl` when it is non-empty. */
  function FormUrl(pkg: string, language: string, region: string): (url: string)
    ensures |url| >= |BaseUrl| + |pkg| && url[..|BaseUrl| + |pkg|] == BaseUrl + pkg
    ensures region == [] && language == [] <==> |url| == |BaseUrl| + |pkg|
  {
    BaseUrl + Query(pkg, language, region)
  }

  /** Everything after the base address. */
  function Query(pkg: string, language: string, region: string): (q: string)
    ensures |q| >= |pkg| && q[..|pkg|] == pkg
  {
    pkg + Param("gl", region) + Param("hl", language)
  }

  /** What an address names: package, language, region. */
  datatype Target = Target(pkg: string, language: string, region: string)

  /** The value of `key=<value>` with a non-empty value. */
  function ParamValue(key: string, field: string): (v: Option<string>)
    ensures v.Some? ==> field == Field(key, v.value) && v.value != []
  {
    var n := |key| + 1;
    if |field| > n && field[..n] == key + "=" then
      assert field == field[..n] + field[n..];
      Some(field[n..])
    else None
  }

  /** Reads an address of the shape the builder writes: the base, the
      package up to the first '&', then at most a `gl` and an `hl`
      parameter in that order. Anything else is rejected. */
  function ParseUrl(url: string): (t: Option<Target>)
  {
    if |url| < |BaseUrl| || url[..|BaseUrl|] != BaseUrl then None
    else ParseQuery(url[|BaseUrl|..])
  }

  /** Reads the part after the base address. */
  function ParseQuery(query: string): (t: Option<Target>)
  {
    ParseFields(Split(query, '&'))
  }

  /** Reads the '&'-separated fields of the part after the base address. */
  function ParseFields(fields: seq<string>): (t: Option<Target>)
    requires |fields| >= 1
  {
      var pkg := fields[0];
      if |fields| == 1 then Some(Target(pkg, "", ""))
      else if |fields| == 2 then
        match ParamValue("gl", fields[1])
        case Some(r) => Some(Target(pkg, "", r))
        case None =>
          match ParamValue("hl", fields[1])
          case Some(l) => Some(Target(pkg, l, ""))
          case None => None
      else if |fields| == 3 then
        match (ParamValue("gl", fields[1]), ParamValue("hl", fields[2]))
        case (Some(r), Some(l)) => Some(Target(pkg, l, r))
        case _ => None
      else None
  }

  lemma ParamValueOf(key: string, value: string)
    requires value != []
    ensures ParamValue(key, Field(key, value)) == Some(value)
  {
    var field := Field(key, value);
    assert field[..|key| + 1] == key + "=";
  }

  /** A parameter field has no '&' when its value has none. */
  lemma FieldHasNoAmp(key: string, value: string)
    requires '&' !in key && '&' !in value
    ensures '&' !in Field(key, value)
  {
    var f := Field(key, value);
    assert forall i :: 0 <= i < |f| ==> f[i] == if i < |key| + 1 then (key + "=")[i] else value[i - |key| - 1];
  }

  /** The part after the base, as the '&'-separated fields the reader
      splits. */
  function QueryFields(pkg: string, language: string, region: string): seq<string> {
    [pkg] + (if region == [] then [] else [Field("gl", region)])
      + (if language == [] then [] else [Field("hl", language)])
  }

  lemma QueryOf(pkg: string, language: string, region: string)
    requires '&' !in pkg && '&' !in language && '&' !in region
    ensures Split(Query(pkg, language, region), '&') == QueryFields(pkg, language, region)
  {
    var gl := Field("gl", region);
    var hl := Field("hl", language);
    FieldHasNoAmp("gl", region);
    FieldHasNoAmp("hl", language);
    if region == [] && language == [] {
      assert Query(pkg, language, region) == pkg;
      SplitOfField(pkg, '&');
      assert QueryFields(pkg, language, region) == [pkg];
    } else if language == [] {
      Glue(pkg, gl, []);
      SplitOne(pkg, gl);
      assert QueryFields(pkg, language, region) == [pkg, gl];
    } else if region == [] {
      Glue(pkg, [], hl);
      SplitOne(pkg, hl);
      assert QueryFields(pkg, language, region) == [pkg, hl];
    } else {
      Glue(pkg, gl, hl);
      SplitTwo(pkg, gl, hl);
      assert QueryFields(pkg, language, region) == [pkg, gl, hl];
    }
  }

  lemma SplitOne(a: string, b: string)
    requires '&' !in a && '&' !in b
    ensures Split(a + ['&'] + b, '&') == [a, b]
  {
    SplitAfterField(a, '&', b);
    SplitOfField(b, '&');
  }

  lemma SplitTwo(a: string, b: string, c: string)
    requires '&' !in a && '&' !in b && '&' !in c
    ensures Split(a + ['&'] + (b + ['&'] + c), '&') == [a, b, c]
  {
    SplitAfterField(a, '&', b + ['&'] + c);
    SplitOne(b, c);
  }

  /** How optional parameters concatenate: each present one brings its own
      '&'. */
  lemma Glue(pkg: string, a: string, b: string)
    ensures a == [] && b != [] ==> pkg + [] + (['&'] + b) == pkg + ['&'] + b
    ensures a != [] && b == [] ==> pkg + (['&'] + a) + [] == pkg + ['&'] + a
    ensures pkg + (['&'] + a) + (['&'] + b) == pkg + ['&'] + (a + ['&'] + b)
  {
  }

  lemma AfterBase(q: string)
    ensures ParseUrl(BaseUrl + q) == ParseQuery(q)
  {
    var url := BaseUrl + q;
    assert url[..|BaseUrl|] == BaseUrl;
    assert url[|BaseUrl|..] == q;
  }

  /** The address determines package, language and region, provided none
      of them contains '&': reading the built address gives them back. */
  lemma ParseFormUrl(pkg: string, language: string, region: string)
    requires '&' !in pkg && '&' !in language && '&' !in region
    ensures ParseUrl(FormUrl(pkg, language, region)) == Some(Target(pkg, language, region))
  {
    AfterBase(Query(pkg, language, region));
    ParseQueryOf(pkg, language, region);
  }

  /** The query part reads back to the package and the two parameters. */
  lemma ParseQueryOf(pkg: string, language: string, region: string)
    requires '&' !in pkg && '&' !in language && '&' !in region
    ensures ParseQuery(Query(pkg, language, region)) == Some(Target(pkg, language, region))
  {
    QueryOf(pkg, language, region);
    ParseFieldsOf(pkg, language, region);
  }

  lemma ParseFieldsOf(pkg: string, language: string, region: string)
    ensures ParseFields(QueryFields(pkg, language, region)) == Some(Target(pkg, language, region))
  {
    var fields := QueryFields(pkg, language, region);
    if region == [] && language == [] {
      assert fields == [pkg];
    } else if language == [] {
      assert fields == [pkg, Field("gl", region)];
      ParamValueOf("gl", region);
    } else if region == [] {
      var hl := Field("hl", language);
      assert fields == [pkg, hl];
      ParamValueOf("hl", language);
      assert ParamValue("gl", hl).None? by {
        assert hl[0] == 'h';
      }
    } else {
      assert fields == [pkg, Field("gl", region), Field("hl", language)];
      ParamValueOf("gl", region);
      ParamValueOf("hl", language);
    }
  }

  /** Different targets give different addresses. */
  lemma FormUrlInjective(a: Target, b: Target)
    requires '&' !in a.pkg && '&' !in a.language && '&' !in a.region
    requires '&' !in b.pkg && '&' !in b.language && '&' !in b.region
    requires FormUrl(a.pkg, a.language, a.region) == FormUrl(b.pkg, b.language, b.region)
    ensures a == b
  {
    ParseFormUrl(a.pkg, a.language, a.region);
    ParseFormUrl(b.pkg, b.language, b.region);
  }

  /** The address the fetch loop requests for a package in a non-empty
      region: the English page, region first, language second. */
  lemma DriverUrl(pkg: string, region: string)
    requires region != []
    ensures FormUrl(pkg, "en", region) == BaseUrl + pkg + "&gl=" + region + "&hl=en"
  {
    assert Param("gl", region) == "&gl=" + region;
    assert Param("hl", "en") == "&hl=en";
  }

  /** The same address, written out for one package in the US. */
  lemma DriverUrlExample()
    ensures FormUrl("com.example.app", "en", "US")
            == "https://play.google.com/store/apps/details?id=com.example.app&gl=US&hl=en"
  {
  }

  /** Without region and language the address is the base and the package
      alone, which is the address the older scraper builds by hand. */
  lemma BareUrl(pkg: string)
    ensures FormUrl(pkg, "", "") == BaseUrl + pkg
  {
  }
}
