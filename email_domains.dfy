/**
 * `get_email_region` and `get_email_site` (utils.py): the last and the first
 * dot-separated piece of an email domain, with "nan" for a missing domain.
 */
module EmailDomains {
  import opened Wrappers

  /** Python's `str()` of a cell of an email-domain column; a missing value (NaN) prints as "nan". */
  function Str(entry: Option<string>): string
  {
    match entry
    case None => "nan"
    case Some(s) => s
  }

  predicate NoDot(s: string)
  {
    '.' !in s
  }

  /** The number of dots in `s`. */
  function Dots(s: string): nat
  {
    if s == [] then 0 else (if s[0] == '.' then 1 else 0) + Dots(s[1..])
  }

  lemma {:induction false} DotsZero(s: string)
    ensures Dots(s) == 0 <==> NoDot(s)
  {
    if s != [] {
      DotsZero(s[1..]);
      assert s == [s[0]] + s[1..];
    }
  }

  /** `s.split(".")`: the pieces between the dots, empty pieces included; never an empty list. */
  function Split(s: string): (parts: seq<string>)
    ensures |parts| == Dots(s) + 1
    ensures forall k :: 0 <= k < |parts| ==> NoDot(parts[k])
  {
    if s == [] then [""]
    else
      var rest := Split(s[1..]);
      if s[0] == '.' then [""] + rest
      else [[s[0]] + rest[0]] + rest[1..]
  }

  /** `".".join(parts)`, the inverse of `Split`. */
  function Join(parts: seq<string>): string
    requires |parts| >= 1
  {
    if |parts| == 1 then parts[0] else parts[0] + "." + Join(parts[1..])
  }

  /** Splitting on dots loses nothing: joining the pieces back with dots gives the input. */
  lemma {:induction false} JoinSplit(s: string)
    ensures Join(Split(s)) == s
  {
    if s != [] {
      var rest := Split(s[1..]);
      JoinSplit(s[1..]);
      if s[0] == '.' {
        assert Split(s) == [""] + rest;
        assert s == "." + s[1..];
      } else {
        var parts := [[s[0]] + rest[0]] + rest[1..];
        assert Split(s) == parts;
        if |rest| == 1 {
          assert s == [s[0]] + s[1..];
        } else {
          assert parts[1..] == rest[1..];
          assert Join(rest) == rest[0] + "." + Join(rest[1..]);
          assert s == [s[0]] + s[1..];
        }
      }
    }
  }

  /** `get_email_region`: the piece after the last dot. */
  function EmailRegion(entry: Option<string>): (region: string)
    ensures NoDot(region) && |region| <= |Str(entry)|
    ensures region == Str(entry)[|Str(entry)| - |region|..]
  {
    if Str(entry) == "nan" then "nan"
    else
      var parts := Split(Str(entry));
      LastPiece(Str(entry));
      parts[|parts| - 1]
  }

  /** `get_email_site`: the piece before the first dot. */
  function EmailSite(entry: Option<string>): (site: string)
    ensures NoDot(site) && site <= Str(entry)
  {
    if Str(entry) == "nan" then "nan"
    else
      FirstPiece(Str(entry));
      Split(Str(entry))[0]
  }

  /** The first piece of a split is the longest dot-free prefix of the input. */
  lemma {:induction false} FirstPiece(s: string)
    ensures var site := Split(s)[0];
      site <= s && NoDot(site) && (|site| < |s| ==> s[|site|] == '.')
  {
    if s != [] && s[0] != '.' {
      FirstPiece(s[1..]);
    }
  }

  /** The last piece of a split is the longest dot-free suffix of the input. */
  lemma {:induction false} LastPiece(s: string)
    ensures var parts := Split(s); var region := parts[|parts| - 1];
      |region| <= |s| && s[|s| - |region|..] == region && NoDot(region)
      && (|region| < |s| ==> s[|s| - |region| - 1] == '.')
  {
    if s != [] {
      LastPiece(s[1..]);
      var rest := Split(s[1..]);
      var parts := Split(s);
      var region := parts[|parts| - 1];
      if s[0] != '.' && |rest| == 1 {
        DotsZero(s[1..]);
        SplitNoDot(s[1..]);
        assert region == [s[0]] + rest[0];
        assert s == [s[0]] + s[1..];
      } else {
        assert region == rest[|rest| - 1];
        assert s[|s| - |region|..] == s[1..][|s| - 1 - |region|..];
        if |region| == |s| - 1 && s[0] != '.' {
          assert region == s[1..];
          DotsZero(s[1..]);
          assert false;
        }
      }
    }
  }

  lemma {:induction false} SplitNoDot(s: string)
    requires NoDot(s)
    ensures Split(s) == [s]
  {
    if s != [] {
      assert s[0] != '.';
      assert NoDot(s[1..]) by { assert forall k :: 0 <= k < |s[1..]| ==> s[1..][k] == s[k + 1]; }
      SplitNoDot(s[1..]);
      assert s == [s[0]] + s[1..];
    }
  }

  /** A missing domain, or the literal text "nan", yields the sentinel "nan" from both helpers. */
  lemma NanSentinel(entry: Option<string>)
    requires Str(entry) == "nan"
    ensures EmailRegion(entry) == "nan" && EmailSite(entry) == "nan"
  {
  }

  /** The sentinel branch agrees with plain splitting: "nan" has no dot, so it splits to itself. */
  lemma SentinelAgreesWithSplit(entry: Option<string>)
    ensures var parts := Split(Str(entry));
      EmailRegion(entry) == parts[|parts| - 1] && EmailSite(entry) == parts[0]
  {
    if Str(entry) == "nan" {
      SplitNoDot("nan");
    }
  }

  /** The region contains no dot, is a suffix of the domain and starts right after its last dot. */
  lemma RegionIsLastPiece(entry: Option<string>)
    ensures var s, region := Str(entry), EmailRegion(entry);
      |region| <= |s| && s[|s| - |region|..] == region && NoDot(region)
      && (|region| < |s| ==> s[|s| - |region| - 1] == '.')
  {
    SentinelAgreesWithSplit(entry);
    LastPiece(Str(entry));
  }

  /** The site contains no dot, is a prefix of the domain and stops right before its first dot. */
  lemma SiteIsFirstPiece(entry: Option<string>)
    ensures var s, site := Str(entry), EmailSite(entry);
      site <= s && NoDot(site) && (|site| < |s| ==> s[|site|] == '.')
  {
    SentinelAgreesWithSplit(entry);
    FirstPiece(Str(entry));
  }

  /** A domain without a dot is its own region and its own site. */
  lemma NoDotUnchanged(domain: string)
    requires NoDot(domain)
    ensures EmailRegion(Some(domain)) == domain && EmailSite(Some(domain)) == domain
  {
    SplitNoDot(domain);
  }

  /** A domain with exactly one dot is its site, a dot and its region. */
  lemma OneDotRecombines(domain: string)
    requires Dots(domain) == 1
    ensures EmailSite(Some(domain)) + "." + EmailRegion(Some(domain)) == domain
  {
    var parts := Split(domain);
    SentinelAgreesWithSplit(Some(domain));
    JoinSplit(domain);
    assert |parts| == 2;
    assert Join(parts) == parts[0] + "." + Join(parts[1..]);
  }

  /** The sentinel is ambiguous: every real domain whose last piece is "nan" gets the region of a missing domain. */
  lemma SentinelIsAmbiguous(d: string)
    ensures EmailRegion(Some(d + ".nan")) == EmailRegion(None) == "nan"
  {
    var s := d + ".nan";
    var region := EmailRegion(Some(s));
    RegionIsLastPiece(Some(s));
    var n, m := |s|, |region|;
    assert s[n - 4] == '.' && s[n - 3] == 'n' && s[n - 2] == 'a' && s[n - 1] == 'n';
    forall i | n - m <= i < n ensures s[i] != '.' {
      assert s[i] == region[i - (n - m)];
    }
    assert m == 3;
    assert region == s[n - 3..];
  }
}
