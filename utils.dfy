/**
  lib/utils.js: the sanitisers for file and category names, the default name
  built from the clock, the unit choice of `formatSize`, and the error
  translation table. The clock (`Date.now()`) is the parameter `now`.
*/
module Utils {
  import opened Wrappers
  import opened JsString

  /* ---------------------------- sanitizeName ---------------------------- */

  /** The characters `sanitizeName` deletes: `< > : " / \ | ? *`. */
  predicate IsHazard(c: char) {
    c == '<' || c == '>' || c == ':' || c == '"' || c == '/' || c == '\\' ||
    c == '|' || c == '?' || c == '*'
  }

  predicate NoHazard(s: string) {
    forall i :: 0 <= i < |s| ==> !IsHazard(s[i])
  }

  /** The first step of `sanitizeName`: every hazard character deleted. */
  function RemoveHazards(s: string): (r: string)
    ensures NoHazard(r) && |r| <= |s|
    ensures NoHazard(s) ==> r == s
    ensures NoSpace(s) ==> NoSpace(r)
    ensures r == [] <==> forall i :: 0 <= i < |s| ==> IsHazard(s[i])
  {
    var keep := (c: char) => !IsHazard(c);
    var r := Filter(s, keep);
    assert NoSpace(s) ==> NoSpace(r) by {
      if NoSpace(s) { FilterKeepsProperty(s, keep, IsJsSpace); }
    }
    r
  }

  lemma {:induction false} FilterKeepsProperty(s: string, keep: char -> bool, bad: char -> bool)
    requires forall i :: 0 <= i < |s| ==> !bad(s[i])
    ensures forall i :: 0 <= i < |Filter(s, keep)| ==> !bad(Filter(s, keep)[i])
  {
    if s != [] {
      FilterKeepsProperty(s[1..], keep, bad);
    }
  }

  /** The second step of `sanitizeName` (`replace(/\s+/g, '_')`): each maximal
      run of whitespace becomes one `_`. */
  function CollapseSpaces(s: string): (r: string)
    decreases |s|
    ensures NoSpace(r) && |r| <= |s|
    ensures NoHazard(s) ==> NoHazard(r)
    ensures NoSpace(s) ==> r == s
    ensures (r == []) == (s == [])
  {
    if s == [] then []
    else if IsJsSpace(s[0]) then "_" + CollapseSpaces(TrimStart(s))
    else [s[0]] + CollapseSpaces(s[1..])
  }

  /** A name made of characters that are neither hazards nor whitespace, of
      1 to 50 characters: what `sanitizeName` always returns. */
  predicate IsSafeName(s: string) {
    0 < |s| <= 50 && NoHazard(s) && NoSpace(s)
  }

  /** The cleaned name before the fallback: hazards deleted, whitespace runs
      collapsed, cut to 50 units and trimmed. */
  function CleanName(name: string): (r: string)
    ensures |r| <= 50 && NoHazard(r) && NoSpace(r)
  {
    Trim(Take(CollapseSpaces(RemoveHazards(name)), 50))
  }

  /** `'未命名_' + Date.now().toString(36).slice(-4)`. */
  function FallbackName(now: nat): (r: string)
    ensures IsSafeName(r)
  {
    var digits := LastN(Radix(now, 36), 4);
    DigitsAreSafe(digits);
    assert NoHazard("未命名_") && NoSpace("未命名_");
    SafeConcat("未命名_", digits);
    "未命名_" + digits
  }

  lemma DigitsAreSafe(d: string)
    requires forall i :: 0 <= i < |d| ==> IsDigitChar(d[i])
    ensures NoHazard(d) && NoSpace(d)
  {
  }

  lemma SafeConcat(a: string, b: string)
    requires NoHazard(a) && NoSpace(a) && NoHazard(b) && NoSpace(b)
    ensures NoHazard(a + b) && NoSpace(a + b)
  {
  }

  /** `sanitizeName(name)` when the clock reads `now`. */
  function SanitizeName(name: string, now: nat): (r: string)
    ensures IsSafeName(r)
  {
    var cleaned := CleanName(name);
    if cleaned != "" then cleaned else FallbackName(now)
  }

  /** Every maximal whitespace run is replaced by exactly one `_`: a
      whitespace-free part `a`, then a run `w`, then a part `b` that does not
      start with whitespace, collapse to `a + "_" + collapse(b)`. */
  lemma CollapseRun(a: string, w: string, b: string)
    requires NoSpace(a)
    requires |w| > 0 && forall i :: 0 <= i < |w| ==> IsJsSpace(w[i])
    requires b == [] || !IsJsSpace(b[0])
    ensures CollapseSpaces(a + w + b) == a + "_" + CollapseSpaces(b)
  {
    var c := CollapseSpaces(b);
    assert CollapseSpaces(a + (w + b)) == a + CollapseSpaces(w + b) by { CollapsePrefix(a, w + b); }
    assert CollapseSpaces(w + b) == "_" + c by { CollapseLeadingRun(w, b); }
    ConcatAssoc(a, w, b);
    ConcatAssoc(a, "_", c);
  }

  lemma ConcatAssoc(x: string, y: string, z: string)
    ensures x + y + z == x + (y + z)
  {
  }

  lemma ConsConcat(x: string, y: string)
    requires x != []
    ensures x + y == [x[0]] + (x[1..] + y)
  {
    assert x == [x[0]] + x[1..];
  }

  /** A whitespace-free prefix passes through unchanged. */
  lemma {:induction false} CollapsePrefix(a: string, t: string)
    requires NoSpace(a)
    ensures CollapseSpaces(a + t) == a + CollapseSpaces(t)
  {
    if a == [] {
      assert a + t == t;
    } else {
      ConsConcat(a, t);
      CollapseKeeps(a[0], a[1..] + t);
      CollapsePrefix(a[1..], t);
      ConsConcat(a, CollapseSpaces(t));
    }
  }

  /** A character that is not whitespace passes through unchanged. */
  lemma CollapseKeeps(c: char, t: string)
    requires !IsJsSpace(c)
    ensures CollapseSpaces([c] + t) == [c] + CollapseSpaces(t)
  {
    assert ([c] + t)[1..] == t;
  }

  /** A leading whitespace run collapses to one `_`. */
  lemma CollapseLeadingRun(w: string, b: string)
    requires |w| > 0 && forall i :: 0 <= i < |w| ==> IsJsSpace(w[i])
    requires b == [] || !IsJsSpace(b[0])
    ensures CollapseSpaces(w + b) == "_" + CollapseSpaces(b)
  {
    assert (w + b)[0] == w[0];
    TrimStartRun(w, b);
  }

  lemma {:induction false} TrimStartRun(w: string, b: string)
    requires forall i :: 0 <= i < |w| ==> IsJsSpace(w[i])
    requires b == [] || !IsJsSpace(b[0])
    ensures TrimStart(w + b) == b
  {
    if w != [] {
      assert (w + b)[1..] == w[1..] + b;
      TrimStartRun(w[1..], b);
    }
  }

  /** The fallback name is used exactly when the name consists only of
      hazard characters (so a name of whitespace alone becomes `_`). */
  lemma FallbackExactlyWhenAllHazards(name: string)
    ensures CleanName(name) == [] <==> forall i :: 0 <= i < |name| ==> IsHazard(name[i])
  {
    var collapsed := CollapseSpaces(RemoveHazards(name));
    assert Trim(Take(collapsed, 50)) == Take(collapsed, 50);
  }

  /** A cleaned name that reaches 50 characters is cut to exactly 50. */
  lemma SanitizeNameCutsAtFifty(name: string, now: nat)
    requires |CollapseSpaces(RemoveHazards(name))| >= 50
    ensures |SanitizeName(name, now)| == 50
  {
    var collapsed := CollapseSpaces(RemoveHazards(name));
    assert Trim(Take(collapsed, 50)) == Take(collapsed, 50);
  }

  /** `sanitizeName` leaves a name unchanged exactly when it is already safe. */
  lemma SanitizeNameFixedPoints(s: string, now: nat)
    ensures SanitizeName(s, now) == s <==> IsSafeName(s)
  {
    if IsSafeName(s) {
      assert CleanName(s) == s;
    }
  }

  /** Sanitising twice is sanitising once, whatever the clock reads the
      second time. */
  lemma SanitizeNameIdempotent(name: string, now: nat, later: nat)
    ensures SanitizeName(SanitizeName(name, now), later) == SanitizeName(name, now)
  {
    SanitizeNameFixedPoints(SanitizeName(name, now), later);
  }

  /** A name made only of whitespace becomes a single underscore, not the
      fallback name. */
  lemma SanitizeNameOfSpaces(w: string, now: nat)
    requires |w| > 0 && forall i :: 0 <= i < |w| ==> IsJsSpace(w[i])
    ensures SanitizeName(w, now) == "_"
  {
    assert NoHazard(w) by {
      forall i | 0 <= i < |w| ensures !IsHazard(w[i]) { assert IsJsSpace(w[i]); }
    }
    TrimStartRun(w, "");
    assert w + "" == w;
    assert CollapseSpaces(w) == "_";
    assert NoSpace("_");
  }

  lemma SanitizeNameOfEmpty(now: nat)
    ensures SanitizeName("", now) == FallbackName(now)
  {
  }

  /* -------------------------- sanitizeCategory -------------------------- */

  /** The characters `sanitizeCategory` keeps: ASCII letters and digits, the
      CJK ideographs U+4E00 to U+9FA5, `_` and `-`. */
  predicate IsCategoryChar(c: char) {
    ('a' <= c <= 'z') || ('A' <= c <= 'Z') || ('0' <= c <= '9') ||
    ('\U{4E00}' <= c <= '\U{9FA5}') || c == '_' || c == '-'
  }

  predicate IsSafeCategory(s: string) {
    0 < |s| <= 30 && forall i :: 0 <= i < |s| ==> IsCategoryChar(s[i])
  }

  const DefaultCategory := "default"

  function CleanCategory(name: string): (r: string)
    ensures |r| <= 30 && forall i :: 0 <= i < |r| ==> IsCategoryChar(r[i])
  {
    var kept := Filter(name, IsCategoryChar);
    var cut := Take(kept, 30);
    assert NoSpace(cut);
    Trim(cut)
  }

  lemma DefaultCategoryIsSafe()
    ensures IsSafeCategory(DefaultCategory)
  {
    forall i | 0 <= i < |DefaultCategory| ensures IsCategoryChar(DefaultCategory[i]) {
      assert 'a' <= DefaultCategory[i] <= 'z';
    }
  }

  /** `sanitizeCategory(name)`. */
  function SanitizeCategory(name: string): (r: string)
    ensures IsSafeCategory(r)
    ensures forall i :: 0 <= i < |r| ==> r[i] != '.' && r[i] != '/'
  {
    var cleaned := CleanCategory(name);
    var r := if cleaned != "" then cleaned else (DefaultCategoryIsSafe(); DefaultCategory);
    SafeCategoryHasNoSeparators(r);
    r
  }

  lemma SafeCategoryHasNoSeparators(s: string)
    requires IsSafeCategory(s)
    ensures forall i :: 0 <= i < |s| ==> s[i] != '.' && s[i] != '/'
  {
    forall i | 0 <= i < |s| ensures s[i] != '.' && s[i] != '/' {
      assert IsCategoryChar(s[i]);
    }
  }

  /** `sanitizeCategory` leaves a name unchanged exactly when it is already a
      safe category. */
  lemma SanitizeCategoryFixedPoints(s: string)
    ensures SanitizeCategory(s) == s <==> IsSafeCategory(s)
  {
    if IsSafeCategory(s) {
      assert Filter(s, IsCategoryChar) == s;
      assert NoSpace(s);
    }
  }

  lemma SanitizeCategoryIdempotent(name: string)
    ensures SanitizeCategory(SanitizeCategory(name)) == SanitizeCategory(name)
  {
    SanitizeCategoryFixedPoints(SanitizeCategory(name));
  }

  /** The output is `default` exactly when no character of the input is kept. */
  lemma SanitizeCategoryDefault(name: string)
    requires forall i :: 0 <= i < |name| ==> !IsCategoryChar(name[i])
    ensures SanitizeCategory(name) == DefaultCategory
  {
  }

  /** Path traversal is stripped: `../../etc` becomes `etc`. */
  lemma SanitizeCategoryStripsTraversal()
    ensures SanitizeCategory("../../etc") == "etc"
  {
    DropsTraversal();
    CleanCategoryOfEtc();
  }

  lemma DropsTraversal()
    ensures Filter("../../etc", IsCategoryChar) == Filter("etc", IsCategoryChar)
  {
    UpLevelsFiltered();
    FilterAppend("../../", "etc", IsCategoryChar);
    assert "../../" + "etc" == "../../etc";
  }

  lemma UpLevelsFiltered()
    ensures Filter("../../", IsCategoryChar) == []
  {
    var up := "../../";
    assert forall i :: 0 <= i < |up| ==> up[i] == '.' || up[i] == '/';
  }

  lemma CleanCategoryOfEtc()
    ensures CleanCategory("etc") == "etc"
  {
    assert Filter("etc", IsCategoryChar) == "etc";
    assert NoSpace("etc");
  }

  lemma SanitizeCategoryOfEmpty()
    ensures SanitizeCategory("") == "default"
  {
  }

  /* ------------------------- formatSize, default name ------------------------- */

  datatype SizeUnit = KB | MB

  const MiB := 1024 * 1024

  /** The unit `formatSize(bytes)` writes: megabytes from 1 MiB on, kilobytes
      below, so a kilobyte figure is always under 1024. */
  function FormatSizeUnit(bytes: int): (u: SizeUnit)
    ensures u == MB <==> bytes >= MiB
    ensures u == KB ==> bytes / 1024 < 1024
    ensures u == MB ==> bytes / MiB >= 1
  {
    if bytes >= MiB then MB else KB
  }

  /** `generateDefaultName()` when the clock reads `now`: `图片_` followed by
      the base-36 digits of the timestamp. */
  function GenerateDefaultName(now: nat): (r: string)
    ensures StartsWith(r, "图片_") && |r| > |"图片_"|
    ensures forall i :: |"图片_"| <= i < |r| ==> IsDigitChar(r[i])
  {
    "图片_" + Radix(now, 36)
  }

  /** Two different timestamps never give the same default name. */
  lemma DefaultNameInjective(t1: nat, t2: nat)
    ensures GenerateDefaultName(t1) == GenerateDefaultName(t2) ==> t1 == t2
  {
    if GenerateDefaultName(t1) == GenerateDefaultName(t2) {
      var n := |"图片_"|;
      assert GenerateDefaultName(t1)[n..] == Radix(t1, 36);
      assert GenerateDefaultName(t2)[n..] == Radix(t2, 36);
      RadixInjective(t1, t2, 36);
    }
  }

  /* --------------------------- errorTranslator --------------------------- */

  /** A thrown error as `errorTranslator` reads it: its `message`, and its
      `code` (the empty string when the error has none). */
  datatype JsError = JsError(message: string, code: string)

  /** The entries of the translation table that hold text. `limitText` is
      `formatSize(maxFileSize)`, already rendered. */
  function ErrorTable(key: string, limitText: string): (r: Option<string>)
    ensures r.Some? ==> |r.value| > 0 && r.value[0] != '未' && r.value[0] != 'H'
  {
    if key == "ECONNRESET" then Some("\U{1F310} 连接意外断开")
    else if key == "ECONNABORTED" then Some("\U{23F3} 下载超时")
    else if key == "ENOTFOUND" then Some("\U{1F310} 域名无法解析")
    else if key == "EACCES" then Some("\U{1F512} 文件访问权限不足")
    else if key == "ENOENT" then Some("\U{274C} 文件不存在")
    else if key == "HTTP_404" then Some("\U{1F517} 图片不存在(404)")
    else if key == "HTTP_403" then Some("\U{1F512} 无访问权限(403)")
    else if key == "HTTP_500" then Some("\U{1F6D1} 服务器错误(500)")
    else if key == "TIMEOUT" then Some("\U{23F3} 请求超时")
    else if key == "FILE_SIZE_EXCEEDED" then Some(SizeExceededText(limitText))
    else None
  }

  function SizeExceededText(limitText: string): string {
    "\U{274C} 文件大小超过限制（最大 " + limitText + "）"
  }

  /** The text of the `invalid_type` entry; JavaScript renders a missing
      part as `undefined`. */
  function InvalidTypeText(ext: Option<string>): string {
    "\U{274C} 不支持 " + (match ext case Some(e) => e case None => "undefined") + " 格式文件"
  }

  function HttpFallbackText(message: string): string {
    "HTTP错误: " + (match SecondField(message, '_') case Some(f) => f case None => "undefined")
  }

  function UnknownErrorText(message: string): string {
    "未知错误：" + message
  }

  /** Messages that the first four rules of `errorTranslator` decide on
      their own, before the error code is consulted. */
  predicate DecidedByMessage(message: string) {
    StartsWith(message, "invalid_type") || message == "FILE_SIZE_EXCEEDED" ||
    message == "TIMEOUT" || StartsWith(message, "HTTP_")
  }

  /** `errorTranslator(err, maxFileSize)`. */
  function ErrorTranslator(err: JsError, limitText: string): (r: string)
    ensures |r| > 0
  {
    var m := err.message;
    if StartsWith(m, "invalid_type") then InvalidTypeText(SecondField(m, ':'))
    else if m == "FILE_SIZE_EXCEEDED" then SizeExceededText(limitText)
    else if m == "TIMEOUT" then ErrorTable("TIMEOUT", limitText).value
    else if StartsWith(m, "HTTP_") then
      (match ErrorTable(m, limitText) case Some(t) => t case None => HttpFallbackText(m))
    else if err.code != "" && ErrorTable(err.code, limitText).Some? then ErrorTable(err.code, limitText).value
    else (match ErrorTable(m, limitText) case Some(t) => t case None => UnknownErrorText(m))
  }

  /** An error is recognised when some rule other than the final fallback
      applies to it. */
  predicate Recognised(err: JsError, limitText: string) {
    DecidedByMessage(err.message) ||
    (err.code != "" && ErrorTable(err.code, limitText).Some?) ||
    ErrorTable(err.message, limitText).Some?
  }

  /** The "unknown error" text comes out exactly for the errors no rule
      recognises. */
  lemma UnknownExactlyWhenUnrecognised(err: JsError, limitText: string)
    ensures ErrorTranslator(err, limitText) == UnknownErrorText(err.message)
            <==> !Recognised(err, limitText)
  {
    var r := ErrorTranslator(err, limitText);
    var u := UnknownErrorText(err.message);
    assert u[0] == '未';
    if Recognised(err, limitText) {
      assert r[0] != '未';
    }
  }

  /** The first four rules take precedence over the error code: for such a
      message the code never changes the text. */
  lemma MessageRulesIgnoreCode(message: string, code1: string, code2: string, limitText: string)
    requires DecidedByMessage(message)
    ensures ErrorTranslator(JsError(message, code1), limitText) ==
            ErrorTranslator(JsError(message, code2), limitText)
  {
  }

  /** For any other message, a code found in the table wins over the message. */
  lemma CodeBeforeMessage(message: string, code: string, limitText: string)
    requires !DecidedByMessage(message) && code != "" && ErrorTable(code, limitText).Some?
    ensures ErrorTranslator(JsError(message, code), limitText) == ErrorTable(code, limitText).value
  {
  }

  /** An HTTP status without its own entry is reported by its number. */
  lemma HttpStatusWithoutEntry(status: string, code: string, limitText: string)
    requires forall i :: 0 <= i < |status| ==> status[i] != '_'
    requires status != "404" && status != "403" && status != "500"
    ensures ErrorTranslator(JsError("HTTP_" + status, code), limitText) == "HTTP错误: " + status
  {
    var m := "HTTP_" + status;
    assert m == "HTTP" + ['_'] + status;
    SecondFieldOf("HTTP", '_', status);
    assert StartsWith(m, "HTTP_");
    PrefixCancel("HTTP_", status, "404");
    PrefixCancel("HTTP_", status, "403");
    PrefixCancel("HTTP_", status, "500");
    HttpTableMiss(m, limitText);
    HttpMessageRule(m, code, limitText);
  }

  /** A message starting with `HTTP_` is decided by the fourth rule. */
  lemma HttpMessageRule(m: string, code: string, limitText: string)
    requires StartsWith(m, "HTTP_")
    ensures ErrorTranslator(JsError(m, code), limitText) ==
            match ErrorTable(m, limitText) case Some(t) => t case None => HttpFallbackText(m)
  {
    assert m[0] == 'H';
    assert !StartsWith(m, "invalid_type") by { assert "invalid_type"[0] != 'H'; }
    assert m != "FILE_SIZE_EXCEEDED" && m != "TIMEOUT";
  }

  /** Only three `HTTP_` keys have entries of their own. */
  lemma HttpTableMiss(m: string, limitText: string)
    requires |m| > 0 && m[0] == 'H'
    requires m != "HTTP_404" && m != "HTTP_403" && m != "HTTP_500"
    ensures ErrorTable(m, limitText) == None
  {
  }

  lemma PrefixCancel(p: string, x: string, y: string)
    ensures p + x == p + y ==> x == y
  {
    assert (p + x)[|p|..] == x && (p + y)[|p|..] == y;
  }

  /** A message with its own entry wins over the code. */
  lemma ErrorTranslatorStatusBeforeCode(limitText: string)
    ensures ErrorTranslator(JsError("HTTP_404", "ENOENT"), limitText) == "\U{1F517} 图片不存在(404)"
  {
  }

  /** `invalid_type:<ext>` names the rejected extension. */
  lemma InvalidTypeNamesExtension(ext: string, code: string, limitText: string)
    requires forall i :: 0 <= i < |ext| ==> ext[i] != ':'
    ensures ErrorTranslator(JsError("invalid_type:" + ext, code), limitText) == "\U{274C} 不支持 " + ext + " 格式文件"
  {
    var m := "invalid_type:" + ext;
    assert m == "invalid_type" + [':'] + ext;
    SecondFieldOf("invalid_type", ':', ext);
    assert StartsWith(m, "invalid_type");
  }

  lemma ErrorTranslatorUnknown(limitText: string)
    ensures ErrorTranslator(JsError("boom", ""), limitText) == "未知错误：boom"
  {
  }
}
