/** The string helpers of the browser client (client/main.js): HTML escaping, API
    URL building, the form transforms for skills and hotlines, and the volunteer
    choices offered when assigning a request. */
module Client {
  import opened Common
  import opened Text
  import opened Js
  import opened Models
  import Cms
  import PublicVolunteers

  // ---- escapeHtml ----

  /** `s.replaceAll(c, rep)` for a one-character pattern. */
  function ReplaceAll(s: string, c: char, rep: string): (r: string)
    ensures c !in s ==> r == s
    ensures |rep| >= 1 ==> |r| >= |s|
  {
    if s == [] then []
    else (if s[0] == c then rep else [s[0]]) + ReplaceAll(s[1..], c, rep)
  }

  lemma {:induction false} ReplaceAllAppend(a: string, b: string, c: char, rep: string)
    ensures ReplaceAll(a + b, c, rep) == ReplaceAll(a, c, rep) + ReplaceAll(b, c, rep)
  {
    if a == [] {
      assert a + b == b;
    } else {
      assert (a + b)[1..] == a[1..] + b;
      ReplaceAllAppend(a[1..], b, c, rep);
    }
  }

  /** `escapeHtml`: five `replaceAll` calls, `&` first. Escaping never shortens a text,
      and a text with none of the five special characters comes back unchanged. */
  function EscapeHtml(s: string): (r: string)
    ensures |r| >= |s|
    ensures (forall i :: 0 <= i < |s| ==> s[i] != '&' && !Markup(s[i])) ==> r == s
  {
    assert (forall i :: 0 <= i < |s| ==> s[i] != '&' && !Markup(s[i])) ==>
             '&' !in s && '<' !in s && '>' !in s && '"' !in s && '\'' !in s;
    ReplaceAll(ReplaceAll(ReplaceAll(ReplaceAll(ReplaceAll(s, '&', "&amp;"), '<', "&lt;"), '>', "&gt;"), '"', "&quot;"), '\'', "&#39;")
  }

  /** `escapeHtml(value)` on any value: `String(value)` first. */
  function EscapeValue(value: JsValue): string {
    EscapeHtml(ToStr(value))
  }

  /** The replacement for one character. */
  function Entity(c: char): string {
    if c == '&' then "&amp;"
    else if c == '<' then "&lt;"
    else if c == '>' then "&gt;"
    else if c == '"' then "&quot;"
    else if c == '\'' then "&#39;"
    else [c]
  }

  /** The single-pass escape: each character replaced by its entity. */
  function EscapeEach(s: string): (r: string) {
    if s == [] then [] else Entity(s[0]) + EscapeEach(s[1..])
  }

  /** `replaceAll` on a one-character string. */
  lemma ReplaceAllOne(c: char, d: char, rep: string)
    ensures ReplaceAll([c], d, rep) == if c == d then rep else [c]
  {
    assert [c][1..] == [];
  }

  lemma EscapeOne(c: char)
    ensures EscapeHtml([c]) == Entity(c)
  {
    ReplaceAllOne(c, '&', "&amp;");
    if c == '&' {
      assert '<' !in "&amp;" && '>' !in "&amp;" && '"' !in "&amp;" && '\'' !in "&amp;";
    } else {
      ReplaceAllOne(c, '<', "&lt;");
      if c == '<' {
        assert '>' !in "&lt;" && '"' !in "&lt;" && '\'' !in "&lt;";
      } else {
        ReplaceAllOne(c, '>', "&gt;");
        if c == '>' {
          assert '"' !in "&gt;" && '\'' !in "&gt;";
        } else {
          ReplaceAllOne(c, '"', "&quot;");
          if c == '"' {
            assert '\'' !in "&quot;";
          } else {
            ReplaceAllOne(c, '\'', "&#39;");
          }
        }
      }
    }
  }

  /** The `replaceAll` chain equals the single pass: because `&` is replaced first,
      no entity written by a later step is escaped again. */
  lemma {:induction false} EscapeHtmlIsEscapeEach(s: string)
    ensures EscapeHtml(s) == EscapeEach(s)
  {
    if s != [] {
      var head, tail := [s[0]], s[1..];
      assert s == head + tail;
      var r1 := ReplaceAll(head, '&', "&amp;");
      var r2 := ReplaceAll(r1, '<', "&lt;");
      var r3 := ReplaceAll(r2, '>', "&gt;");
      var r4 := ReplaceAll(r3, '"', "&quot;");
      var t1 := ReplaceAll(tail, '&', "&amp;");
      var t2 := ReplaceAll(t1, '<', "&lt;");
      var t3 := ReplaceAll(t2, '>', "&gt;");
      var t4 := ReplaceAll(t3, '"', "&quot;");
      ReplaceAllAppend(head, tail, '&', "&amp;");
      ReplaceAllAppend(r1, t1, '<', "&lt;");
      ReplaceAllAppend(r2, t2, '>', "&gt;");
      ReplaceAllAppend(r3, t3, '"', "&quot;");
      ReplaceAllAppend(r4, t4, '\'', "&#39;");
      EscapeOne(s[0]);
      EscapeHtmlIsEscapeEach(tail);
    }
  }

  /** One of the five entities starts `t`. */
  predicate StartsWithEntity(t: string) {
    StartsWith(t, "&amp;") || StartsWith(t, "&lt;") || StartsWith(t, "&gt;") || StartsWith(t, "&quot;") || StartsWith(t, "&#39;")
  }

  predicate Markup(c: char) {
    c == '<' || c == '>' || c == '"' || c == '\''
  }

  /** An entity holds no markup character, and its only `&` is its first character. */
  lemma EntitySafe(c: char)
    ensures forall i :: 0 <= i < |Entity(c)| ==> !Markup(Entity(c)[i])
    ensures forall i :: 0 <= i < |Entity(c)| && Entity(c)[i] == '&' ==> i == 0 && StartsWithEntity(Entity(c))
  {
    if c == '&' {
      assert Entity(c) == "&amp;";
    } else if c == '<' {
      assert Entity(c) == "&lt;";
    } else if c == '>' {
      assert Entity(c) == "&gt;";
    } else if c == '"' {
      assert Entity(c) == "&quot;";
    } else if c == '\'' {
      assert Entity(c) == "&#39;";
    }
  }

  /** A text that begins with an entity still does once more text follows. */
  lemma StartsWithEntityExtend(e: string, rest: string)
    requires StartsWithEntity(e)
    ensures StartsWithEntity(e + rest)
  {
    var r := e + rest;
    forall p: string | StartsWith(e, p) ensures StartsWith(r, p) {
      assert r[..|p|] == e[..|p|];
    }
  }

  /** The escaped text has no markup characters, and every `&` in it begins an entity. */
  lemma {:induction false} EscapeEachSafe(s: string)
    ensures forall i :: 0 <= i < |EscapeEach(s)| ==> !Markup(EscapeEach(s)[i])
    ensures forall i :: 0 <= i < |EscapeEach(s)| && EscapeEach(s)[i] == '&' ==> StartsWithEntity(EscapeEach(s)[i..])
  {
    if s != [] {
      EscapeEachSafe(s[1..]);
      var e, rest := Entity(s[0]), EscapeEach(s[1..]);
      var r := e + rest;
      assert r == EscapeEach(s);
      EntitySafe(s[0]);
      forall i | 0 <= i < |r| && r[i] == '&' ensures StartsWithEntity(r[i..]) {
        if i < |e| {
          assert r[i] == e[i];
          assert i == 0;
          assert r[i..] == e + rest;
          StartsWithEntityExtend(e, rest);
        } else {
          assert r[i..] == rest[i - |e|..];
          assert rest[i - |e|] == '&';
          assert StartsWithEntity(rest[i - |e|..]);
        }
      }
      forall i | 0 <= i < |r| ensures !Markup(r[i]) {
        if i >= |e| {
          assert r[i] == rest[i - |e|];
          assert !Markup(rest[i - |e|]);
        } else {
          assert r[i] == e[i];
          assert !Markup(e[i]);
        }
      }
    }
  }

  /** `escapeHtml` leaves no markup characters, and each `&` it leaves is an entity. */
  lemma EscapeHtmlSafe(s: string)
    ensures var r := EscapeHtml(s);
            && (forall i :: 0 <= i < |r| ==> !Markup(r[i]))
            && (forall i :: 0 <= i < |r| && r[i] == '&' ==> StartsWithEntity(r[i..]))
  {
    EscapeHtmlIsEscapeEach(s);
    EscapeEachSafe(s);
  }

  // ---- buildApiUrl ----

  predicate IsAbsoluteHttp(path: string) {
    StartsWith(path, "http://") || StartsWith(path, "https://")
  }

  /** `buildApiUrl(path)` with the client's `API_BASE`. */
  function BuildApiUrl(apiBase: string, path: string): (url: string)
    ensures IsAbsoluteHttp(path) ==> url == path
    ensures !IsAbsoluteHttp(path) ==>
              && |url| == |apiBase| + |path| + (if StartsWith(path, "/") then 0 else 1)
              && url[..|apiBase|] == apiBase
              && url[|apiBase|] == '/'
              && url[|url| - |path|..] == path
  {
    if IsAbsoluteHttp(path) then path
    else
      var normalized := if StartsWith(path, "/") then path else "/" + path;
      if apiBase != "" then apiBase + normalized else normalized
  }

  /** A built URL is never built again: feeding it back with an empty base, or an
      absolute one, returns it unchanged. */
  lemma BuildApiUrlStable(path: string)
    ensures BuildApiUrl("", BuildApiUrl("", path)) == BuildApiUrl("", path)
  {
    var url := BuildApiUrl("", path);
    if !IsAbsoluteHttp(path) {
      assert StartsWith(url, "/");
    }
  }

  // ---- the form transforms ----

  /** The volunteer form's skills field: comma-split, trimmed, empties dropped. */
  function SkillsField(raw: string): (r: seq<string>)
    ensures raw == "" ==> r == []
    ensures forall i :: 0 <= i < |r| ==> r[i] != "" && IsTrimmed(r[i]) && ',' !in r[i]
    ensures forall x :: x in r <==> x != "" && x in TrimAll(Split(raw, ','))
  {
    if raw != "" then SplitTrimFilter(raw, ',')
    else
      assert TrimAll(Split(raw, ',')) == [""];
      []
  }

  /** The strings as a JSON array. */
  function AsJson(xs: seq<string>): (items: seq<JsValue>)
    ensures |items| == |xs| && forall i :: 0 <= i < |xs| ==> items[i] == Str(xs[i])
  {
    seq(|xs|, i requires 0 <= i < |xs| => Str(xs[i]))
  }

  /** The server keeps every skill the form sends, unchanged and in order. */
  lemma {:induction false} SkillsSurviveSignup(raw: string)
    ensures PublicVolunteers.PublicSkills(AsJson(SkillsField(raw))) == SkillsField(raw)
  {
    SkillsKept(SkillsField(raw));
  }

  lemma {:induction false} SkillsKept(xs: seq<string>)
    requires forall i :: 0 <= i < |xs| ==> xs[i] != "" && IsTrimmed(xs[i])
    ensures PublicVolunteers.PublicSkills(AsJson(xs)) == xs
  {
    if xs != [] {
      SkillsKept(xs[1..]);
      assert AsJson(xs)[1..] == AsJson(xs[1..]);
      TrimOfTrimmed(xs[0]);
      assert [xs[0]] + xs[1..] == xs;
    }
  }

  /** The server stores the CMS textarea's lines (split at newlines, trimmed, empties
      dropped) as sent, up to its limit of ten. */
  lemma HotlinesSurviveUpdate(raw: string)
    ensures var lines := SplitTrimFilter(raw, '\n');
            Cms.NormalizeHotlines(Arr(AsJson(lines))) == Take(lines, Cms.MaxHotlines)
  {
    var lines := SplitTrimFilter(raw, '\n');
    Cms.HotlinesOfNormal(lines);
    assert AsJson(lines) == seq(|lines|, i requires 0 <= i < |lines| => Str(lines[i]));
  }

  // ---- the assignment dropdown ----

  /** `adminVolunteers.filter(v => v.approvalStatus === 'approved' && v.isActive)`. */
  function AssignableVolunteers(vols: seq<Volunteer>): (r: seq<Volunteer>)
    ensures |r| <= |vols|
    ensures forall v :: v in r <==> v in vols && Eligible(v)
  {
    if vols == [] then []
    else (if vols[0].approvalStatus == Approved && vols[0].isActive then [vols[0]] else []) + AssignableVolunteers(vols[1..])
  }
}
