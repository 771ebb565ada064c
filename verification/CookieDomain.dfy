/** Which cookie domains an import filter selects, in memory and in the SQL prefilter. */
module CookieDomain {
  import opened Text
  import opened Wrappers
  import Glob

  const DOT := '.'

  datatype Error = InvalidDomain

  // ---- normalising the filter ----

  /** The characters with the Unicode property White_Space. */
  predicate IsSpace(c: char) {
    var code := c as int;
    || 0x9 <= code <= 0xd || code == 0x20 || code == 0x85 || code == 0xa0 || code == 0x1680
    || 0x2000 <= code <= 0x200a || code == 0x2028 || code == 0x2029 || code == 0x202f || code == 0x205f || code == 0x3000
  }

  /** `str::trim`. */
  function Trim(s: string): (r: string)
    ensures r != [] ==> !IsSpace(r[0]) && !IsSpace(r[|r| - 1])
    ensures s != [] && !IsSpace(s[0]) && !IsSpace(s[|s| - 1]) ==> r == s
  {
    if s != [] && IsSpace(s[0]) then Trim(s[1..])
    else if s != [] && IsSpace(s[|s| - 1]) then Trim(s[..|s| - 1])
    else s
  }

  /** What is left of a text lies between the white space at its ends, and has none at its own. */
  lemma {:induction false} TrimExact(s: string) returns (i: nat, j: nat)
    ensures i <= j <= |s| && Trim(s) == s[i..j]
    ensures forall k :: 0 <= k < i || j <= k < |s| ==> IsSpace(s[k])
    ensures i < j ==> !IsSpace(s[i]) && !IsSpace(s[j - 1])
    decreases |s|
  {
    hide IsSpace, Trim;
    TrimUnfold(s);
    i, j := 0, |s|;
    if s != [] && IsSpace(s[0]) {
      i, j := TrimExact(s[1..]);
      i, j := i + 1, j + 1;
      forall k | 0 <= k < i || j <= k < |s| ensures IsSpace(s[k]) { if k > 0 { assert s[k] == s[1..][k - 1]; } }
    } else if s != [] && IsSpace(s[|s| - 1]) {
      i, j := TrimExact(s[..|s| - 1]);
      forall k | 0 <= k < i || j <= k < |s| ensures IsSpace(s[k]) { if k < |s| - 1 { assert s[k] == s[..|s| - 1][k]; } }
    }
  }

  lemma TrimUnfold(s: string)
    ensures Trim(s) == if s != [] && IsSpace(s[0]) then Trim(s[1..])
                       else if s != [] && IsSpace(s[|s| - 1]) then Trim(s[..|s| - 1])
                       else s
  {
    hide IsSpace;
  }

  predicate IsAlphanumeric(c: char) { '0' <= c <= '9' || 'a' <= c <= 'z' || 'A' <= c <= 'Z' }

  predicate ValidLabel(part: string) {
    && part != [] && |part| <= 63
    && (forall i :: 0 <= i < |part| ==> IsAlphanumeric(part[i]) || part[i] == '-')
    && part[0] != '-' && part[|part| - 1] != '-'
  }

  predicate Hostname(s: string) {
    s != [] && |s| <= 253 && forall i :: 0 <= i < |Split(s, DOT)| ==> ValidLabel(Split(s, DOT)[i])
  }

  /** Between `i` and `j` stand 1 to 63 letters, digits and inner hyphens. */
  ghost predicate LabelAt(s: string, i: int, j: int)
    requires 0 <= i <= j <= |s|
  {
    && 1 <= j - i <= 63 && s[i] != '-' && s[j - 1] != '-'
    && forall k :: i <= k < j ==> 'a' <= s[k] <= 'z' || 'A' <= s[k] <= 'Z' || '0' <= s[k] <= '9' || s[k] == '-'
  }

  lemma LabelChars(s: string, i: int, j: int)
    requires 0 <= i <= j <= |s|
    ensures ValidLabel(s[i..j]) <==> LabelAt(s, i, j)
  {
    var part := s[i..j];
    assert forall k :: i <= k < j ==> s[k] == part[k - i];
    assert forall k :: 0 <= k < |part| ==> part[k] == s[i + k];
  }

  /** A host name has at most 253 characters, and a label in every stretch without a dot. */
  lemma HostnameExact(s: string)
    ensures Hostname(s) <==> s != [] && |s| <= 253 && forall i, j :: IsPiece(s, DOT, i, j) ==> LabelAt(s, i, j)
  {
    hide Split, ValidLabel, LabelAt;
    if Hostname(s) {
      forall i, j | IsPiece(s, DOT, i, j) ensures LabelAt(s, i, j) {
        assert PieceFrom(s, DOT, 0, s[i..j]);
        PieceIs(s, DOT, s[i..j]);
        LabelChars(s, i, j);
      }
    }
    if forall i, j :: IsPiece(s, DOT, i, j) ==> LabelAt(s, i, j) {
      forall n | 0 <= n < |Split(s, DOT)| ensures ValidLabel(Split(s, DOT)[n]) {
        PieceIs(s, DOT, Split(s, DOT)[n]);
        var i, j :| 0 <= i && IsPiece(s, DOT, i, j) && Split(s, DOT)[n] == s[i..j];
        LabelChars(s, i, j);
      }
    }
  }

  /** `valid_cookie_domain`. */
  predicate ValidCookieDomain(domain: string) { Hostname(TrimStart(domain, DOT)) }

  predicate IsAscii(s: string) { forall i :: 0 <= i < |s| ==> s[i] as int < 128 }

  predicate HasScheme(s: string) { exists i :: 0 <= i < |s| - 2 && s[i] == ':' && s[i + 1] == '/' && s[i + 2] == '/' }

  function StripDot(s: string): string { if s != [] && s[|s| - 1] == DOT then s[..|s| - 1] else s }

  /** `normalize_import_domain`. */
  function NormalizeImportDomain(domain: Option<string>): Result<Option<string>, Error> {
    if domain.None? || Trim(domain.value) == [] then Ok(None)
    else
      var trimmed := Trim(domain.value);
      if |trimmed| > 255 || !IsAscii(trimmed) then Err(InvalidDomain)
      else
        var normalized := Fold(StripDot(trimmed));
        if trimmed[0] == DOT || HasScheme(trimmed) || '/' in trimmed || '\\' in trimmed || ':' in trimmed || '*' in trimmed
           || !ValidCookieDomain(normalized)
        then Err(InvalidDomain)
        else Ok(Some(normalized))
  }

  lemma {:induction false} PieceChar(s: string, i: nat)
    requires i < |s| && s[i] != DOT
    ensures exists k, j :: 0 <= k < |Split(s, DOT)| && 0 <= j < |Split(s, DOT)[k]| && Split(s, DOT)[k][j] == s[i]
  {
    var rest := Split(s[1..], DOT);
    if i == 0 {
      assert Split(s, DOT)[0][0] == s[0];
    } else {
      PieceChar(s[1..], i - 1);
      var k, j :| 0 <= k < |rest| && 0 <= j < |rest[k]| && rest[k][j] == s[i];
      if s[0] == DOT {
        assert Split(s, DOT)[k + 1] == rest[k];
      } else if k == 0 {
        assert Split(s, DOT)[0][j + 1] == s[i];
      } else {
        assert Split(s, DOT)[k] == rest[k];
      }
    }
  }

  /** A host name holds letters, digits, hyphens and inner dots only. */
  lemma HostnameChars(s: string)
    requires Hostname(s)
    ensures forall i :: 0 <= i < |s| ==> s[i] == DOT || s[i] == '-' || IsAlphanumeric(s[i])
    ensures s != [] && |s| <= 253 && s[0] != DOT && s[|s| - 1] != DOT
  {
    forall i | 0 <= i < |s| && s[i] != DOT ensures s[i] == '-' || IsAlphanumeric(s[i]) {
      PieceChar(s, i);
      var k, j :| 0 <= k < |Split(s, DOT)| && 0 <= j < |Split(s, DOT)[k]| && Split(s, DOT)[k][j] == s[i];
      assert ValidLabel(Split(s, DOT)[k]);
    }
    var labels := Split(s, DOT);
    assert ValidLabel(labels[0]) && ValidLabel(labels[|labels| - 1]);
    var front := s[..|s| - 1];
    SplitConcat(front, DOT, []);
    assert front + [DOT] + [] != s || Split(s, DOT) == Split(front, DOT) + [[]];
  }

  /** The filters that normalisation produces: lower-case host names. */
  predicate IsFilter(filter: string) { Hostname(filter) && Fold(filter) == filter }

  lemma TrimStartNothing(s: string)
    requires s == [] || s[0] != DOT
    ensures TrimStart(s, DOT) == s
  {
  }

  lemma FoldStripDot(s: string)
    ensures Fold(StripDot(s)) == StripDot(Fold(s))
  {
  }

  lemma NormalizeSound(domain: string, filter: string)
    requires NormalizeImportDomain(Some(domain)) == Ok(Some(filter))
    ensures IsFilter(filter) && (Fold(Trim(domain)) == filter || Fold(Trim(domain)) == filter + [DOT])
  {
    hide Hostname, IsAscii, HasScheme, Trim, Fold, TrimStart;
    var trimmed := Trim(domain);
    assert filter == Fold(StripDot(trimmed)) && trimmed[0] != DOT;
    FoldIdempotent(StripDot(trimmed));
    FoldStripDot(trimmed);
    assert filter == [] || filter[0] == FoldChar(trimmed[0]);
    TrimStartNothing(filter);
  }

  /** Letters, digits, hyphens and dots pass every check on single characters. */
  lemma PlainPasses(s: string)
    requires forall i :: 0 <= i < |s| ==> s[i] == DOT || s[i] == '-' || IsAlphanumeric(s[i])
    ensures IsAscii(s) && !HasScheme(s) && '/' !in s && '\\' !in s && ':' !in s && '*' !in s
  {
  }

  lemma NormalizeComplete(domain: string, filter: string)
    requires IsFilter(filter) && (Fold(Trim(domain)) == filter || Fold(Trim(domain)) == filter + [DOT])
    ensures NormalizeImportDomain(Some(domain)) == Ok(Some(filter))
  {
    hide Hostname, IsAscii, HasScheme, Trim;
    var trimmed := Trim(domain);
    HostnameChars(filter);
    FoldStripDot(trimmed);
    TrimStartNothing(filter);
    forall i | 0 <= i < |trimmed| ensures trimmed[i] == DOT || trimmed[i] == '-' || IsAlphanumeric(trimmed[i]) {
      assert FoldChar(trimmed[i]) == Fold(trimmed)[i];
      assert i < |filter| ==> Fold(trimmed)[i] == filter[i];
    }
    PlainPasses(trimmed);
    assert Fold(trimmed)[0] == filter[0];
  }

  /** A filter is accepted exactly when it is a host name, up to white space, letter case and one dot at the end. */
  lemma NormalizeExact(domain: string, filter: string)
    ensures NormalizeImportDomain(Some(domain)) == Ok(Some(filter))
            <==> IsFilter(filter) && (Fold(Trim(domain)) == filter || Fold(Trim(domain)) == filter + [DOT])
  {
    hide NormalizeImportDomain, IsFilter;
    if NormalizeImportDomain(Some(domain)) == Ok(Some(filter)) {
      NormalizeSound(domain, filter);
    }
    if IsFilter(filter) && (Fold(Trim(domain)) == filter || Fold(Trim(domain)) == filter + [DOT]) {
      NormalizeComplete(domain, filter);
    }
  }

  /** Normalising again changes nothing. */
  lemma NormalizeStable(domain: string, filter: string)
    requires NormalizeImportDomain(Some(domain)) == Ok(Some(filter))
    ensures NormalizeImportDomain(Some(filter)) == Ok(Some(filter))
  {
    hide Hostname, NormalizeImportDomain, Trim;
    NormalizeSound(domain, filter);
    HostnameChars(filter);
    assert Trim(filter) == filter;
    NormalizeComplete(filter, filter);
  }

  // ---- matching a cookie's domain ----

  predicate IsSuffix<T(==)>(tail: seq<T>, whole: seq<T>) { |tail| <= |whole| && whole[|whole| - |tail|..] == tail }

  /** `domain_matches`. */
  predicate DomainMatches(cookieDomain: string, filter: Option<string>) {
    filter.None? ||
    var isDomainCookie := cookieDomain != [] && cookieDomain[0] == DOT;
    var normalized := Fold(TrimStart(cookieDomain, DOT));
    || normalized == filter.value
    || (isDomainCookie && IsSuffix(normalized, filter.value)
        && var prefix := filter.value[..|filter.value| - |normalized|]; prefix != [] && prefix[|prefix| - 1] == DOT)
  }

  /** The labels of a domain name, letter case aside. */
  function Labels(domain: string): seq<string> { Split(Fold(domain), DOT) }

  /** The same labels, or a dotted cookie domain whose labels are a proper suffix of the filter's. */
  predicate LabelsMatch(cookieDomain: string, filter: string) {
    var labels := Labels(TrimStart(cookieDomain, DOT));
    || labels == Labels(filter)
    || (cookieDomain != [] && cookieDomain[0] == DOT && IsProperSuffix(labels, Labels(filter)))
  }

  lemma {:induction false} JoinAppend(left: seq<string>, right: seq<string>)
    requires left != [] && right != []
    ensures Join(left + right, DOT) == Join(left, DOT) + [DOT] + Join(right, DOT)
  {
    if |left| == 1 {
      assert (left + right)[1..] == right;
    } else {
      JoinAppend(left[1..], right);
      assert (left + right)[1..] == left[1..] + right;
    }
  }

  /** The whole ends in a dot and the name. */
  predicate EndsInDotted(name: string, whole: string) {
    IsSuffix(name, whole) && |name| < |whole| && whole[|whole| - |name| - 1] == DOT
  }

  predicate IsProperSuffix<T(==)>(tail: seq<T>, whole: seq<T>) { IsSuffix(tail, whole) && |tail| < |whole| }

  lemma DottedToLabels(name: string, whole: string)
    requires EndsInDotted(name, whole)
    ensures IsProperSuffix(Split(name, DOT), Split(whole, DOT))
  {
    hide Split;
    var front := whole[..|whole| - |name| - 1];
    SplitConcat(front, DOT, name);
    assert whole == front + [DOT] + name;
  }

  lemma LabelsToDotted(name: string, whole: string)
    requires IsProperSuffix(Split(name, DOT), Split(whole, DOT))
    ensures EndsInDotted(name, whole)
  {
    hide Split, Join;
    var tail, labels := Split(name, DOT), Split(whole, DOT);
    var front := labels[..|labels| - |tail|];
    assert labels == front + tail;
    JoinAppend(front, tail);
    JoinSplit(name, DOT);
    JoinSplit(whole, DOT);
    assert whole == Join(front, DOT) + [DOT] + name;
  }

  /** For every accepted filter the string test means the label-list statement. */
  lemma DomainMatchesLabels(cookieDomain: string, filter: string)
    requires IsFilter(filter)
    ensures DomainMatches(cookieDomain, Some(filter)) <==> LabelsMatch(cookieDomain, filter)
  {
    hide Hostname, Split, TrimStart, Fold;
    var normalized := Fold(TrimStart(cookieDomain, DOT));
    if Split(normalized, DOT) == Split(filter, DOT) {
      SplitInjective(normalized, filter, DOT);
    }
    MatchesByParts(cookieDomain, filter);
    if EndsInDotted(normalized, filter) {
      DottedToLabels(normalized, filter);
    }
    if IsProperSuffix(Split(normalized, DOT), Split(filter, DOT)) {
      LabelsToDotted(normalized, filter);
    }
  }

  lemma MatchesByParts(cookieDomain: string, filter: string)
    ensures var normalized := Fold(TrimStart(cookieDomain, DOT));
            DomainMatches(cookieDomain, Some(filter))
            <==> normalized == filter || (cookieDomain != [] && cookieDomain[0] == DOT && EndsInDotted(normalized, filter))
  {
    hide TrimStart, Fold;
  }

  // ---- the SQL prefilter ----

  /** The domain clause of both scope constants; `LIKE` folds ASCII case, `%` is any run and `_` any character. */
  ghost predicate SqlScope(host: string, filter: Option<string>) {
    filter.None? ||
    var bare := Fold(TrimStart(host, DOT));
    || bare == filter.value
    || (host != [] && host[0] == DOT && Like(filter.value, "%." + bare))
  }

  ghost predicate Like(text: string, pattern: string) { Glob.Denotes(Fold(pattern), Fold(text), '%', '_') }

  lemma {:induction false} LikeItself(s: string)
    ensures Glob.Denotes(s, s, '%', '_')
  {
    if s != [] {
      LikeItself(s[1..]);
    }
  }

  lemma {:induction false} LikePlain(pattern: string, text: string)
    requires '%' !in pattern && '_' !in pattern && Glob.Denotes(pattern, text, '%', '_')
    ensures pattern == text
  {
    if pattern != [] {
      LikePlain(pattern[1..], text[1..]);
      assert pattern == [pattern[0]] + pattern[1..] && text == [text[0]] + text[1..];
    }
  }

  lemma FoldPattern(name: string)
    requires Fold(name) == name
    ensures Fold("%." + name) == "%." + name
  {
    var pattern := "%." + name;
    forall i | 2 <= i < |pattern| ensures Fold(pattern)[i] == pattern[i] {
      assert FoldChar(name[i - 2]) == Fold(name)[i - 2];
    }
  }

  lemma LikeUnfold(name: string, text: string)
    requires Fold(name) == name && Fold(text) == text
    ensures Like(text, "%." + name) <==> exists k :: 0 <= k <= |text| && Glob.Denotes("." + name, text[k..], '%', '_')
  {
    FoldPattern(name);
    assert ("%." + name)[1..] == "." + name;
  }

  /** Every row that the string test accepts meets the domain clause. */
  lemma SqlAdmits(host: string, filter: string)
    requires IsFilter(filter) && DomainMatches(host, Some(filter))
    ensures SqlScope(host, Some(filter))
  {
    hide Hostname, TrimStart, Fold, Like, Glob.Denotes;
    var bare := Fold(TrimStart(host, DOT));
    FoldIdempotent(TrimStart(host, DOT));
    if bare != filter {
      var k := |filter| - |bare| - 1;
      assert filter[k..] == "." + bare;
      LikeItself("." + bare);
      LikeUnfold(bare, filter);
    }
  }

  /** For a valid cookie domain the clause and the string test agree. */
  lemma SqlExact(host: string, filter: string)
    requires IsFilter(filter) && ValidCookieDomain(host)
    ensures SqlScope(host, Some(filter)) <==> DomainMatches(host, Some(filter))
  {
    hide Hostname, TrimStart, Like, Glob.Denotes;
    if DomainMatches(host, Some(filter)) {
      SqlAdmits(host, filter);
    }
    var bare := Fold(TrimStart(host, DOT));
    if SqlScope(host, Some(filter)) && bare != filter {
      FoldIdempotent(TrimStart(host, DOT));
      LikeUnfold(bare, filter);
      var k :| 0 <= k <= |filter| && Glob.Denotes("." + bare, filter[k..], '%', '_');
      HostnameChars(TrimStart(host, DOT));
      assert '%' !in bare && '_' !in bare;
      LikePlain("." + bare, filter[k..]);
      assert filter[k..] == "." + bare;
      MatchesByParts(host, filter);
    }
  }

  lemma ShortFilter()
    ensures IsFilter("ab.c")
  {
    SplitPiece("ab", DOT);
    SplitPiece("c", DOT);
    SplitConcat("ab", DOT, "c");
    assert "ab.c" == "ab" + [DOT] + "c";
    assert Split("ab.c", DOT) == ["ab", "c"];
    hide Split;
  }

  /** For other rows the clause may admit more: an underscore stands for any character. */
  lemma SqlAdmitsMore()
    ensures IsFilter("ab.c")
    ensures SqlScope("._", Some("ab.c")) && !DomainMatches("._", Some("ab.c"))
  {
    ShortFilter();
    hide IsFilter, Split;
    assert TrimStart("._", DOT) == "_";
    LikeUnfold("_", "ab.c");
    assert "." + "_" == "._" && "._"[1..] == "_" && ".c"[1..] == "c";
    assert Glob.Denotes("_", "c", '%', '_');
    assert "ab.c"[2..] == ".c";
    assert Glob.Denotes("." + "_", "ab.c"[2..], '%', '_');
  }

  /** There is no filter exactly when none is given or it is white space only, and then every cookie is selected. */
  lemma NoFilter(domain: Option<string>, host: string)
    ensures NormalizeImportDomain(domain) == Ok(None) <==> domain.None? || forall k :: 0 <= k < |domain.value| ==> IsSpace(domain.value[k])
    ensures DomainMatches(host, None) && SqlScope(host, None)
  {
    hide IsSpace, Hostname, Trim;
    if domain.Some? {
      var i, j := TrimExact(domain.value);
      if i < j { assert !IsSpace(domain.value[i]); }
    }
  }

  // ---- duplicates among the imported cookies ----

  datatype Cookie = Cookie(name: string, domain: string, path: string, value: string)

  function Identity(cookie: Cookie): (string, string, string) { (cookie.name, Fold(cookie.domain), cookie.path) }

  /** The same name and path, and the same domain but for letter case. */
  lemma IdentityExact(a: Cookie, b: Cookie)
    ensures Identity(a) == Identity(b) <==> a.name == b.name && a.path == b.path && CaseVariants(a.domain, b.domain)
  {
    FoldExact(a.domain, b.domain);
  }

  /** No earlier cookie has the identity of the one at `i`. */
  predicate First(cookies: seq<Cookie>, i: nat)
    requires i < |cookies|
  {
    forall j :: 0 <= j < i ==> Identity(cookies[j]) != Identity(cookies[i])
  }

  /** `unique_runtime_cookies`: the first cookie of every identity, in the order read. */
  method UniqueRuntimeCookies(cookies: seq<Cookie>) returns (unique: seq<Cookie>, ghost kept: seq<nat>)
    ensures |kept| == |unique| && forall k :: 0 <= k < |kept| ==> kept[k] < |cookies| && unique[k] == cookies[kept[k]]
    ensures forall k, l :: 0 <= k < l < |kept| ==> kept[k] < kept[l]
    ensures forall i: nat :: i in kept <==> i < |cookies| && First(cookies, i)
    ensures forall k, l :: 0 <= k < l < |unique| ==> Identity(unique[k]) != Identity(unique[l])
  {
    var identities: set<(string, string, string)> := {};
    unique, kept := [], [];
    for n := 0 to |cookies|
      invariant identities == set i | 0 <= i < n :: Identity(cookies[i])
      invariant |kept| == |unique| && forall k :: 0 <= k < |kept| ==> kept[k] < n && unique[k] == cookies[kept[k]]
      invariant forall k, l :: 0 <= k < l < |kept| ==> kept[k] < kept[l]
      invariant forall i: nat :: i in kept <==> i < n && First(cookies, i)
    {
      var identity := Identity(cookies[n]);
      if identity !in identities {
        unique, kept := unique + [cookies[n]], kept + [n];
      } else {
        assert !First(cookies, n);
      }
      identities := identities + {identity};
    }
    forall k, l | 0 <= k < l < |unique| ensures Identity(unique[k]) != Identity(unique[l]) {
      assert kept[l] in kept && First(cookies, kept[l]);
    }
  }
}
