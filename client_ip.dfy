/**
 * Client key extraction of the request throttle (`getClientIP`, blog.java:267-273):
 * the remote address, or the first field of the `X-Forwarded-For` header as
 * Java's `String.split(",")` produces it.
 */
module ClientIdentity {
  import opened Wrappers

  /** The inbound request, reduced to what the throttle reads from it. */
  datatype Request = Request(forwardedFor: Option<string>, remoteAddr: string)

  /** `xfHeader.split(",")[0]` indexes an empty array. */
  datatype ClientIpError = ArrayIndexOutOfBounds

  /** A non-empty string made of commas only: the one input Java splits into no fields. */
  predicate OnlyCommas(s: string) {
    |s| > 0 && forall i :: 0 <= i < |s| ==> s[i] == ','
  }

  /**
   * `p` is the part of `s` before its first comma: a prefix of `s` with no comma,
   * followed in `s` by a comma or by nothing.
   */
  predicate IsFirstField(p: string, s: string) {
    p <= s && ',' !in p && (|p| == |s| || s[|p|] == ',')
  }

  /** The fields put back together with a comma between each two. */
  function Join(parts: seq<string>): string
  {
    if parts == [] then ""
    else if |parts| == 1 then parts[0]
    else parts[0] + "," + Join(parts[1..])
  }

  /** Appending a field appends a comma and that field. */
  lemma {:induction false} JoinSnoc(p: seq<string>, x: string)
    requires |p| >= 1
    ensures Join(p + [x]) == Join(p) + "," + x
    decreases |p|
  {
    if |p| > 1 {
      assert (p + [x])[1..] == p[1..] + [x];
      JoinSnoc(p[1..], x);
    }
  }

  /** Splits `s` at every comma, keeping every (possibly empty) field. */
  function SplitAll(s: string): (parts: seq<string>)
    ensures |parts| >= 1
    ensures Join(parts) == s
    ensures IsFirstField(parts[0], s)
    ensures forall i :: 0 <= i < |parts| ==> ',' !in parts[i]
    ensures (forall i :: 0 <= i < |parts| ==> parts[i] == "") <==>
            (forall j :: 0 <= j < |s| ==> s[j] == ',')
  {
    if s == [] then [""]
    else
      var rest := SplitAll(s[1..]);
      if s[0] == ',' then
        var t, parts := s[1..], [""] + rest;
        assert (forall j :: 0 <= j < |s| ==> s[j] == ',') <==> (forall j :: 0 <= j < |t| ==> t[j] == ',') by {
          assert forall j :: 1 <= j < |s| ==> s[j] == t[j - 1];
        }
        assert (forall i :: 0 <= i < |parts| ==> parts[i] == "") <==> (forall i :: 0 <= i < |rest| ==> rest[i] == "") by {
          assert parts[0] == "";
          assert forall i :: 0 <= i < |rest| ==> rest[i] == parts[i + 1];
        }
        assert parts[1..] == rest;
        assert s == [s[0]] + t;
        parts
      else
        var parts := [[s[0]] + rest[0]] + rest[1..];
        assert parts[1..] == rest[1..];
        assert s == [s[0]] + s[1..];
        parts
  }

  /** Java's `split` with limit 0 drops every empty field at the end of the result. */
  function DropTrailingEmpty(parts: seq<string>): (r: seq<string>)
    ensures r <= parts
    ensures forall i :: |r| <= i < |parts| ==> parts[i] == ""
    ensures r == [] <==> forall i :: 0 <= i < |parts| ==> parts[i] == ""
    ensures r != [] ==> r[|r| - 1] != ""
  {
    if parts == [] then []
    else if parts[|parts| - 1] == "" then DropTrailingEmpty(parts[..|parts| - 1])
    else parts
  }

  /**
   * Rejoined, the kept fields give the joined text minus a run of commas at its
   * end: dropping empty trailing fields only removes trailing commas.
   */
  lemma {:induction false} JoinDropTrailingEmpty(parts: seq<string>)
    ensures Join(DropTrailingEmpty(parts)) <= Join(parts)
    ensures forall j :: |Join(DropTrailingEmpty(parts))| <= j < |Join(parts)| ==> Join(parts)[j] == ','
    decreases |parts|
  {
    if parts != [] && parts[|parts| - 1] == "" {
      var init := parts[..|parts| - 1];
      assert parts == init + [""];
      JoinDropTrailingEmpty(init);
      if |init| >= 1 {
        JoinSnoc(init, "");
      }
    }
  }

  /**
   * `s.split(",")`: a string without a comma comes back whole as the only field;
   * otherwise the fields between commas, with the empty ones at the end removed.
   */
  function JavaSplit(s: string): (r: seq<string>)
    // no field exactly when `s` is made of commas only
    ensures r == [] <==> OnlyCommas(s)
    // the first field is the text before the first comma
    ensures r != [] ==> IsFirstField(r[0], s)
    ensures forall i :: 0 <= i < |r| ==> ',' !in r[i]
    // empty fields at the end are dropped (a lone field may be empty: "" gives [""])
    ensures |r| >= 2 ==> r[|r| - 1] != ""
    // rejoined, the fields give `s` without the commas at its end
    ensures Join(r) <= s && forall j :: |Join(r)| <= j < |s| ==> s[j] == ','
  {
    if ',' !in s then
      assert |s| > 0 ==> s[0] in s;
      [s]
    else
      var parts := SplitAll(s);
      JoinDropTrailingEmpty(parts);
      assert OnlyCommas(s) <==> forall j :: 0 <= j < |s| ==> s[j] == ',';
      DropTrailingEmpty(parts)
  }

  /** The first field of a string is unique. */
  lemma FirstFieldUnique(p: string, q: string, s: string)
    requires IsFirstField(p, s) && IsFirstField(q, s)
    ensures p == q
  {
  }

  /**
   * `getClientIP`: the remote address when the header is absent, otherwise
   * `xfHeader.split(",")[0]`, which fails on a header made of commas only.
   */
  function GetClientIP(request: Request): (r: Result<string, ClientIpError>)
    ensures request.forwardedFor.None? ==> r == Ok(request.remoteAddr)
    ensures request.forwardedFor.Some? ==>
              (r.Err? <==> OnlyCommas(request.forwardedFor.value))
    ensures request.forwardedFor.Some? && r.Ok? ==>
              IsFirstField(r.value, request.forwardedFor.value)
  {
    match request.forwardedFor
    case None => Ok(request.remoteAddr)
    case Some(header) =>
      var fields := JavaSplit(header);
      if |fields| == 0 then Err(ArrayIndexOutOfBounds)
      else Ok(fields[0])
  }

  /**
   * The first field is returned verbatim, whatever it holds besides commas:
   * surrounding spaces are kept, nothing after the first comma is looked at.
   */
  lemma FirstFieldVerbatim(field: string, rest: string, remoteAddr: string)
    requires field != "" && ',' !in field
    ensures GetClientIP(Request(Some(field + "," + rest), remoteAddr)) == Ok(field)
  {
    var h := field + "," + rest;
    assert h[0] == field[0] != ',';
    assert h[|field|] == ',';
    assert field <= h;
    var r := GetClientIP(Request(Some(h), remoteAddr));
    FirstFieldUnique(r.value, field, h);
  }
}
