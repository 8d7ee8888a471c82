/** components/AdNetworkLoader.tsx: once the visitor has granted consent,
    the AdSense and Adsterra scripts configured in the build environment are
    appended to the document head, each at most once. */
module AdLoader {
  import opened Wrappers
  import opened Text
  import opened AdConsent

  // ---------------------------------------------------------------------------
  // readEnv

  /** A value of `import.meta.env`: a string, or anything else. */
  datatype EnvValue = EnvString(s: string) | EnvOther

  /** `import.meta.env`, which may itself be missing. */
  type Env = Option<map<string, EnvValue>>

  /** `readEnv`: the trimmed value of a string variable, `''` otherwise. */
  function ReadEnv(env: Env, key: string): (v: string)
    ensures env.Some? && key in env.value && env.value[key].EnvString? ==> v == TrimJs(env.value[key].s)
    ensures !(env.Some? && key in env.value && env.value[key].EnvString?) ==> v == ""
  {
    if env.Some? && key in env.value && env.value[key].EnvString? then TrimJs(env.value[key].s) else ""
  }

  /** What `readEnv` returns has no white space at either end. */
  lemma ReadEnvTrimmed(env: Env, key: string)
    ensures Trimmed(ReadEnv(env, key))
  {
    if env.Some? && key in env.value && env.value[key].EnvString? {
      TrimJsTrimmed(env.value[key].s);
    }
  }

  // ---------------------------------------------------------------------------
  // encodeURIComponent

  /** The characters `encodeURIComponent` leaves alone. */
  predicate IsUnreserved(c: char) {
    ('A' <= c <= 'Z') || ('a' <= c <= 'z') || ('0' <= c <= '9') || c in "-_.!~*'()"
  }

  predicate IsHexUpper(c: char) {
    ('0' <= c <= '9') || ('A' <= c <= 'F')
  }

  /** The UTF-8 encoding of one character. */
  function Utf8(c: char): (bytes: seq<nat>)
    ensures 1 <= |bytes| <= 4
    ensures forall i :: 0 <= i < |bytes| ==> bytes[i] < 256
  {
    var cp := c as int;
    if cp < 0x80 then [cp]
    else if cp < 0x800 then [0xC0 + cp / 0x40, 0x80 + cp % 0x40]
    else if cp < 0x1_0000 then [0xE0 + cp / 0x1000, 0x80 + (cp / 0x40) % 0x40, 0x80 + cp % 0x40]
    else [0xF0 + cp / 0x4_0000, 0x80 + (cp / 0x1000) % 0x40, 0x80 + (cp / 0x40) % 0x40, 0x80 + cp % 0x40]
  }

  const HexDigits := "0123456789ABCDEF"

  /** `%XX` with upper-case hexadecimal digits. */
  function PercentByte(b: nat): (e: string)
    requires b < 256
    ensures |e| == 3 && e[0] == '%' && IsHexUpper(e[1]) && IsHexUpper(e[2])
  {
    ['%', HexDigits[b / 16], HexDigits[b % 16]]
  }

  function PercentBytes(bytes: seq<nat>): (e: string)
    requires forall i :: 0 <= i < |bytes| ==> bytes[i] < 256
    ensures |e| == 3 * |bytes|
    ensures forall i :: 0 <= i < |e| ==> e[i] == '%' || IsHexUpper(e[i])
  {
    if bytes == [] then "" else PercentByte(bytes[0]) + PercentBytes(bytes[1..])
  }

  /** The characters `encodeURIComponent` can produce. */
  predicate IsEncodedChar(c: char) {
    IsUnreserved(c) || c == '%' || IsHexUpper(c)
  }

  /** `encodeURIComponent` on a string of Unicode scalar values (a string
      that JavaScript could hold without a lone surrogate). */
  function EncodeUriComponent(s: string): (e: string)
    ensures |e| >= |s|
    ensures AllChars(e, IsEncodedChar)
  {
    if s == [] then ""
    else
      var head := if IsUnreserved(s[0]) then [s[0]] else PercentBytes(Utf8(s[0]));
      head + EncodeUriComponent(s[1..])
  }

  /** A value made of unreserved characters only is left as it is. */
  lemma {:induction false} EncodeUnreserved(s: string)
    requires AllChars(s, IsUnreserved)
    ensures EncodeUriComponent(s) == s
  {
    if s != [] {
      assert AllChars(s[1..], IsUnreserved);
      EncodeUnreserved(s[1..]);
    }
  }

  /** The encoded value cannot end the query parameter or start another:
      it holds no `&`, `=`, `#`, `?`, `/` or space. */
  lemma EncodedStaysInParameter(s: string)
    ensures forall i :: 0 <= i < |EncodeUriComponent(s)| ==> EncodeUriComponent(s)[i] !in "&=#?/ "
  {
    var e := EncodeUriComponent(s);
    forall i | 0 <= i < |e|
      ensures e[i] !in "&=#?/ "
    {
      assert IsEncodedChar(e[i]);
    }
  }

  // ---------------------------------------------------------------------------
  // The document head

  /** A `<script>` element: its id, `src`, `async` flag and the attributes
      set on it. */
  datatype Script = Script(id: string, src: string, async: bool, attributes: map<string, string>)

  /** `document.getElementById(id)` finds a script of the head. */
  predicate HasId(head: seq<Script>, id: string) {
    exists i :: 0 <= i < |head| && head[i].id == id
  }

  /** No two scripts of the head share an id. */
  predicate DistinctIds(head: seq<Script>) {
    forall i, j :: 0 <= i < j < |head| ==> head[i].id != head[j].id
  }

  /** The head after `appendScript(id, src, attributes)`. */
  function Appended(head: seq<Script>, id: string, src: string, attributes: map<string, string>): seq<Script> {
    if src == "" || HasId(head, id) then head else head + [Script(id, src, true, attributes)]
  }

  /** `appendScript` does nothing for an empty `src` or a present id, and
      otherwise adds exactly one script with that id at the end, keeping
      the ids distinct. */
  lemma AppendedSpec(head: seq<Script>, id: string, src: string, attributes: map<string, string>)
    requires DistinctIds(head)
    ensures var h := Appended(head, id, src, attributes);
      && DistinctIds(h)
      && HasId(h, id) == (src != "" || HasId(head, id))
      && (src == "" || HasId(head, id) ==> h == head)
      && (src != "" && !HasId(head, id) ==> h[..|head|] == head && h[|head|..] == [Script(id, src, true, attributes)])
  {
    var h := Appended(head, id, src, attributes);
    if src != "" && !HasId(head, id) {
      assert h[|head|].id == id;
    }
  }

  /** Appending the same script again changes nothing. */
  lemma AppendedIdempotent(head: seq<Script>, id: string, src: string, attributes: map<string, string>)
    ensures var h := Appended(head, id, src, attributes);
      Appended(h, id, src, attributes) == h
  {
    var h := Appended(head, id, src, attributes);
    if src != "" && !HasId(head, id) {
      assert h[|head|].id == id;
    }
  }

  const AdsenseScriptId := "ai-coding-hub-adsense-script"
  const AdsterraScriptId := "ai-coding-hub-adsterra-script"
  const AdsenseBase := "https://pagead2.googlesyndication.com/pagead/js/adsbygoogle.js?client="

  function AdsenseSrc(clientId: string): string {
    AdsenseBase + EncodeUriComponent(clientId)
  }

  const AdsenseAttributes: map<string, string> := map["crossorigin" := "anonymous"]

  /** Only `http://` and `https://` Adsterra URLs are loaded. */
  predicate IsHttpUrl(url: string) {
    StartsWith(url, "https://") || StartsWith(url, "http://")
  }

  /** The head after the effect has run with a status and environment. */
  function AfterEffect(head: seq<Script>, status: Status, env: Env): seq<Script> {
    if status != Granted then head
    else
      var client := ReadEnv(env, "VITE_ADSENSE_CLIENT_ID");
      var h1 := if client != "" then Appended(head, AdsenseScriptId, AdsenseSrc(client), AdsenseAttributes) else head;
      var url := ReadEnv(env, "VITE_ADSTERRA_SCRIPT_URL");
      if IsHttpUrl(url) then Appended(h1, AdsterraScriptId, url, map[]) else h1
  }

  /** `document`, reduced to the scripts of its head. */
  class Document {
    var head: seq<Script>

    constructor(head: seq<Script>)
      ensures this.head == head
    {
      this.head := head;
    }

    /** `appendScript` */
    method AppendScript(id: string, src: string, attributes: map<string, string>)
      modifies this
      ensures head == Appended(old(head), id, src, attributes)
    {
      var found := false;
      for i := 0 to |head|
        invariant found <==> exists k :: 0 <= k < i && head[k].id == id
      {
        if head[i].id == id {
          found := true;
        }
      }
      if src == "" || found {
        return;
      }
      head := head + [Script(id, src, true, attributes)];
    }

    /** The effect of `AdNetworkLoader`, run whenever the status changes. */
    method RunEffect(status: Status, env: Env)
      modifies this
      ensures head == AfterEffect(old(head), status, env)
    {
      if status != Granted {
        return;
      }
      var adsenseClientId := ReadEnv(env, "VITE_ADSENSE_CLIENT_ID");
      if adsenseClientId != "" {
        AppendScript(AdsenseScriptId, AdsenseSrc(adsenseClientId), AdsenseAttributes);
      }
      var adsterraScriptUrl := ReadEnv(env, "VITE_ADSTERRA_SCRIPT_URL");
      if IsHttpUrl(adsterraScriptUrl) {
        AppendScript(AdsterraScriptId, adsterraScriptUrl, map[]);
      }
    }
  }

  /** Without consent the effect leaves the head alone. */
  lemma NoConsentNoScripts(head: seq<Script>, status: Status, env: Env)
    requires status != Granted
    ensures AfterEffect(head, status, env) == head
  {
  }

  /** The effect only appends, keeps ids distinct, and running it again
      adds nothing: no script is ever loaded twice. */
  lemma EffectIdempotent(head: seq<Script>, status: Status, env: Env)
    requires DistinctIds(head)
    ensures var h := AfterEffect(head, status, env);
      && h[..|head|] == head && |h| <= |head| + 2
      && DistinctIds(h)
      && AfterEffect(h, status, env) == h
  {
    if status == Granted {
      var client := ReadEnv(env, "VITE_ADSENSE_CLIENT_ID");
      var src := AdsenseSrc(client);
      var h1 := if client != "" then Appended(head, AdsenseScriptId, src, AdsenseAttributes) else head;
      var url := ReadEnv(env, "VITE_ADSTERRA_SCRIPT_URL");
      var h := if IsHttpUrl(url) then Appended(h1, AdsterraScriptId, url, map[]) else h1;
      if client != "" {
        AppendedSpec(head, AdsenseScriptId, src, AdsenseAttributes);
      }
      if IsHttpUrl(url) {
        AppendedSpec(h1, AdsterraScriptId, url, map[]);
      }
      if client != "" {
        assert HasId(h1, AdsenseScriptId) by {
          AppendedSpec(head, AdsenseScriptId, src, AdsenseAttributes);
        }
        assert HasId(h, AdsenseScriptId) by {
          var i :| 0 <= i < |h1| && h1[i].id == AdsenseScriptId;
          assert h[i] == h1[i];
        }
        assert Appended(h, AdsenseScriptId, src, AdsenseAttributes) == h;
      }
      if IsHttpUrl(url) {
        AppendedIdempotent(h1, AdsterraScriptId, url, map[]);
      }
    }
  }

  /** With consent, the AdSense script is in the head afterwards exactly when
      a client id is configured or it was there already; a newly added one
      carries the encoded client id and `crossorigin="anonymous"`. */
  lemma AdsenseLoaded(head: seq<Script>, env: Env)
    requires DistinctIds(head)
    ensures var client := ReadEnv(env, "VITE_ADSENSE_CLIENT_ID");
      var h := AfterEffect(head, Granted, env);
      && (HasId(h, AdsenseScriptId) <==> client != "" || HasId(head, AdsenseScriptId))
      && (client != "" && !HasId(head, AdsenseScriptId) ==>
            h[|head|] == Script(AdsenseScriptId, AdsenseBase + EncodeUriComponent(client), true, AdsenseAttributes))
  {
    var client := ReadEnv(env, "VITE_ADSENSE_CLIENT_ID");
    var src := AdsenseSrc(client);
    var h1 := if client != "" then Appended(head, AdsenseScriptId, src, AdsenseAttributes) else head;
    var url := ReadEnv(env, "VITE_ADSTERRA_SCRIPT_URL");
    if client != "" {
      AppendedSpec(head, AdsenseScriptId, src, AdsenseAttributes);
    }
    if IsHttpUrl(url) {
      AppendedOther(h1, AdsterraScriptId, url, map[], AdsenseScriptId);
    }
  }

  /** Appending a script leaves the scripts already there, and whether a
      script with another id is present, as they were. */
  lemma AppendedOther(head: seq<Script>, id: string, src: string, attributes: map<string, string>, other: string)
    requires other != id
    ensures var h := Appended(head, id, src, attributes);
      |head| <= |h| && h[..|head|] == head && (HasId(h, other) <==> HasId(head, other))
  {
    var h := Appended(head, id, src, attributes);
    if HasId(h, other) {
      var i :| 0 <= i < |h| && h[i].id == other;
      assert i < |head| && h[i] == head[i];
    }
    if HasId(head, other) {
      var i :| 0 <= i < |head| && head[i].id == other;
      assert h[i] == head[i];
    }
  }

  /** With consent, the Adsterra script is in the head afterwards exactly
      when an `http://` or `https://` URL is configured or it was there
      already; a newly added one is the last script, loads that URL
      asynchronously and carries no other attribute. */
  lemma AdsterraLoaded(head: seq<Script>, env: Env)
    ensures var url := ReadEnv(env, "VITE_ADSTERRA_SCRIPT_URL");
      var h := AfterEffect(head, Granted, env);
      && (HasId(h, AdsterraScriptId) <==> IsHttpUrl(url) || HasId(head, AdsterraScriptId))
      && (IsHttpUrl(url) && !HasId(head, AdsterraScriptId) ==>
            |h| > 0 && h[|h| - 1] == Script(AdsterraScriptId, url, true, map[]))
      && (forall i :: 0 <= i < |h| && h[i].id == AdsterraScriptId && !HasId(head, AdsterraScriptId) ==>
            IsHttpUrl(url) && h[i].src == url)
  {
    var client := ReadEnv(env, "VITE_ADSENSE_CLIENT_ID");
    var h1 := if client != "" then Appended(head, AdsenseScriptId, AdsenseSrc(client), AdsenseAttributes) else head;
    var url := ReadEnv(env, "VITE_ADSTERRA_SCRIPT_URL");
    if client != "" {
      AppendedOther(head, AdsenseScriptId, AdsenseSrc(client), AdsenseAttributes, AdsterraScriptId);
    }
    if IsHttpUrl(url) {
      assert url != "" by {
        assert StartsWith(url, "https://") || StartsWith(url, "http://");
      }
      AppendedAt(h1, AdsterraScriptId, url, map[]);
    }
  }

  /** A non-empty `src` with a new id puts that script last in the head,
      and the id is present afterwards either way. */
  lemma AppendedAt(head: seq<Script>, id: string, src: string, attributes: map<string, string>)
    requires src != ""
    ensures var h := Appended(head, id, src, attributes);
      && HasId(h, id)
      && (!HasId(head, id) ==> |h| > 0 && h[|h| - 1] == Script(id, src, true, attributes))
  {
    var h := Appended(head, id, src, attributes);
    if !HasId(head, id) {
      assert h[|head|].id == id;
    }
  }
}
