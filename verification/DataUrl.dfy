/** The data-URL helpers of services/utils.ts (lines 186-190) and the font
    lookup of lines 289-301. Both data-URL helpers test the prefix
    `data:image/<subtype>;base64,` of RFC 2397 section 3 with the subtype
    made of one or more `\w` characters. */
module DataUrl {
  import opened Wrappers
  import opened JsText

  /** The `\w` class of ECMA-262 regular expressions: ASCII letters, digits
      and the underscore. */
  predicate IsWordChar(c: char) {
    'a' <= c <= 'z' || 'A' <= c <= 'Z' || '0' <= c <= '9' || c == '_'
  }

  predicate IsWord(s: string) {
    |s| > 0 && forall i :: 0 <= i < |s| ==> IsWordChar(s[i])
  }

  const DataImage: string := "data:image/"
  const Base64Marker: string := ";base64,"

  /** s starts with `data:image/` + sub + `;base64,`, sub being a `\w+`
      subtype: what both regular expressions match. */
  predicate HasDataUrlPrefix(s: string, sub: string) {
    var n := |DataImage|;
    IsWord(sub) && n + |sub| + |Base64Marker| <= |s| &&
    s[..n] == DataImage && s[n..n + |sub|] == sub && s[n + |sub|..n + |sub| + |Base64Marker|] == Base64Marker
  }

  /** Length of the run of word characters that starts s. */
  function WordRun(s: string): (n: nat)
    ensures n <= |s| && (forall i :: 0 <= i < n ==> IsWordChar(s[i])) && (n < |s| ==> !IsWordChar(s[n]))
  {
    if s == [] || !IsWordChar(s[0]) then 0 else 1 + WordRun(s[1..])
  }

  predicate MarkerAt(rest: string, k: nat) {
    k + |Base64Marker| <= |rest| && rest[k..k + |Base64Marker|] == Base64Marker
  }

  /** The subtype the regular expression captures, if it matches. Since `;`
      is not a word character the greedy `\w+` has a single way to match. */
  function MatchSubtype(s: string): (r: Option<string>)
    ensures r.Some? ==> IsWord(r.value)
  {
    var n := |DataImage|;
    if n <= |s| && s[..n] == DataImage then
      var k := WordRun(s[n..]);
      if k > 0 && MarkerAt(s[n..], k) then Some(s[n..][..k]) else None
    else None
  }

  /** A subtype found by the match really forms the prefix. */
  lemma MatchSubtypeSound(s: string)
    ensures MatchSubtype(s).Some? ==> HasDataUrlPrefix(s, MatchSubtype(s).value)
  {
    if MatchSubtype(s).Some? {
      var n := |DataImage|;
      var rest := s[n..];
      var k := WordRun(rest);
      assert s[n..n + k] == rest[..k];
      assert s[n + k..n + k + |Base64Marker|] == rest[k..k + |Base64Marker|];
    }
  }

  /** Whenever a string has the prefix with some subtype, the match finds
      exactly that subtype. */
  lemma MatchSubtypeComplete(s: string, sub: string)
    requires HasDataUrlPrefix(s, sub)
    ensures MatchSubtype(s) == Some(sub)
  {
    var n := |DataImage|;
    var rest := s[n..];
    assert rest[..|sub|] == sub by {
      assert rest[..|sub|] == s[n..n + |sub|];
    }
    assert rest[|sub|..|sub| + |Base64Marker|] == Base64Marker by {
      assert rest[|sub|..|sub| + |Base64Marker|] == s[n + |sub|..n + |sub| + |Base64Marker|];
    }
    assert rest[|sub|] == Base64Marker[0];
    WordRunStops(rest, |sub|);
  }

  lemma WordRunStops(s: string, k: nat)
    requires k < |s| && (forall i :: 0 <= i < k ==> IsWordChar(s[i])) && !IsWordChar(s[k])
    ensures WordRun(s) == k
  {
  }

  /** Exactly the strings with no data-URL prefix are left without a match. */
  lemma NoMatchIffNoPrefix(s: string)
    ensures MatchSubtype(s).None? <==> forall sub :: !HasDataUrlPrefix(s, sub)
  {
    MatchSubtypeSound(s);
    forall sub | HasDataUrlPrefix(s, sub)
      ensures MatchSubtype(s).Some?
    {
      MatchSubtypeComplete(s, sub);
    }
  }

  /** stripMimeType: the string without its data-URL prefix when it has
      one, unchanged otherwise. */
  function StripMimeType(dataUrl: string): (payload: string)
    ensures MatchSubtype(dataUrl).Some? ==>
              dataUrl == DataImage + MatchSubtype(dataUrl).value + Base64Marker + payload
    ensures MatchSubtype(dataUrl).None? ==> payload == dataUrl
  {
    match MatchSubtype(dataUrl)
    case Some(sub) =>
      MatchSubtypeSound(dataUrl);
      var n := |DataImage|;
      var m := n + |sub| + |Base64Marker|;
      assert dataUrl == dataUrl[..n] + dataUrl[n..n + |sub|] + dataUrl[n + |sub|..m] + dataUrl[m..];
      dataUrl[m..]
    case None => dataUrl
  }

  /** getMimeType: `image/` followed by the matched subtype, `image/png`
      when the prefix is missing. */
  function GetMimeType(dataUrl: string): (mime: string)
    ensures MatchSubtype(dataUrl).Some? ==> mime == "image/" + MatchSubtype(dataUrl).value
    ensures MatchSubtype(dataUrl).None? ==> mime == "image/png"
  {
    match MatchSubtype(dataUrl)
    case Some(sub) => "image/" + sub
    case None => "image/png"
  }

  /** A data URL built from a subtype and a payload is taken apart into that
      subtype and that payload. */
  lemma DataUrlRoundTrip(sub: string, payload: string)
    requires IsWord(sub)
    ensures var url := DataImage + sub + Base64Marker + payload;
            StripMimeType(url) == payload && GetMimeType(url) == "image/" + sub
  {
    var url := DataImage + sub + Base64Marker + payload;
    var n := |DataImage|;
    assert url[..n] == DataImage;
    assert url[n..n + |sub|] == sub;
    assert url[n + |sub|..n + |sub| + |Base64Marker|] == Base64Marker;
    MatchSubtypeComplete(url, sub);
    assert url[n + |sub| + |Base64Marker|..] == payload;
  }

  /** A string that does not start with `data:image/` is left as it is. */
  lemma NonDataUrlUnchanged(s: string)
    requires !(|DataImage| <= |s| && s[..|DataImage|] == DataImage)
    ensures StripMimeType(s) == s && GetMimeType(s) == "image/png"
  {
  }

  // ---------------------------------------------------------------------------
  // getFontFamily (lines 289-301)

  /** The font styles that name a family, in the order they are tested, each
      with the CSS font-family it selects. */
  const FontFamilies: seq<(string, string)> := [
    ("DotGothic16", "DotGothic16, sans-serif"),
    ("Hachi Maru Pop", "Hachi Maru Pop, cursive"),
    ("Reggae One", "Reggae One, cursive"),
    ("Yusei Magic", "Yusei Magic, sans-serif"),
    ("Zen Maru Gothic", "Zen Maru Gothic, sans-serif"),
    ("Bangers", "Bangers, cursive"),
    ("Patrick Hand", "Patrick Hand, cursive"),
    ("Fredoka One", "Fredoka One, cursive"),
    ("Rampart One", "Rampart One, cursive")
  ]

  const DefaultFontFamily: string := "Noto Sans TC, sans-serif"

  /** Index of the first rule from k on whose name the style contains. */
  function FirstFontRule(fontStyle: string, k: nat): (r: Option<nat>)
    requires k <= |FontFamilies|
    ensures r.Some? ==> k <= r.value < |FontFamilies| && Includes(fontStyle, FontFamilies[r.value].0) &&
                        forall j :: k <= j < r.value ==> !Includes(fontStyle, FontFamilies[j].0)
    ensures r.None? ==> forall j :: k <= j < |FontFamilies| ==> !Includes(fontStyle, FontFamilies[j].0)
    decreases |FontFamilies| - k
  {
    if k == |FontFamilies| then None
    else if Includes(fontStyle, FontFamilies[k].0) then Some(k)
    else FirstFontRule(fontStyle, k + 1)
  }

  /** getFontFamily: the custom font when the style says "Custom" and a
      non-empty custom font is given; otherwise the family of the first
      style name the style contains; otherwise Noto Sans TC. */
  function GetFontFamily(fontStyle: string, customFont: Option<string>): (family: string)
    ensures Includes(fontStyle, "Custom") && customFont.Some? && customFont.value != "" ==>
              family == customFont.value
    ensures !(Includes(fontStyle, "Custom") && customFont.Some? && customFont.value != "") ==>
              (exists i :: 0 <= i < |FontFamilies| && Includes(fontStyle, FontFamilies[i].0) &&
                           (forall j :: 0 <= j < i ==> !Includes(fontStyle, FontFamilies[j].0)) &&
                           family == FontFamilies[i].1) ||
              ((forall j :: 0 <= j < |FontFamilies| ==> !Includes(fontStyle, FontFamilies[j].0)) &&
               family == DefaultFontFamily)
  {
    if Includes(fontStyle, "Custom") && customFont.Some? && customFont.value != "" then customFont.value
    else
      match FirstFontRule(fontStyle, 0)
      case Some(i) => FontFamilies[i].1
      case None => DefaultFontFamily
  }
}
