/** The back end's settings: how the CORS_ORIGINS setting becomes the list of
    allowed origins. */
module Config {
  import opened Text

  const LocalFrontend: string := "http://localhost:3000"
  const DeployedFrontend: string := "https://classcheck-frontend.onrender.com"

  /** The CORS_ORIGINS value used when the environment does not set one:
      "http://localhost:3000,https://classcheck-frontend.onrender.com". */
  const DefaultCorsOrigins: string := LocalFrontend + "," + DeployedFrontend

  /** `Settings.cors_origins_list`: the setting split at every comma, each segment stripped. */
  function CorsOriginsList(corsOrigins: string): (r: seq<string>)
    ensures |r| == multiset(corsOrigins)[','] + 1
    ensures forall i :: 0 <= i < |r| ==> ',' !in r[i]
    ensures forall i :: 0 <= i < |r| ==> r[i] == "" || (!IsSpace(r[i][0]) && !IsSpace(r[i][|r[i]| - 1]))
  {
    var segments := Split(corsOrigins, ',');
    var r := seq(|segments|, i requires 0 <= i < |segments| => Strip(segments[i]));
    assert forall i :: 0 <= i < |r| ==> ',' !in r[i] by {
      forall i | 0 <= i < |r| ensures ',' !in r[i] {
        StripKeepsAbsent(segments[i], ',');
      }
    }
    r
  }

  /** The i-th origin is the i-th comma-separated segment of the setting, stripped:
      segments keep their order. */
  lemma {:induction false} OriginIsStrippedSegment(corsOrigins: string, i: nat)
    requires i < |CorsOriginsList(corsOrigins)|
    ensures |Split(corsOrigins, ',')| == |CorsOriginsList(corsOrigins)|
    ensures CorsOriginsList(corsOrigins)[i] == Strip(Split(corsOrigins, ',')[i])
  {
  }

  /** When no segment carries surrounding whitespace, the origins joined with commas
      give back the setting. */
  lemma {:induction false} OriginsRoundTrip(corsOrigins: string)
    requires NoSpace(corsOrigins)
    ensures Join(CorsOriginsList(corsOrigins), ',') == corsOrigins
  {
    var segments := Split(corsOrigins, ',');
    var r := CorsOriginsList(corsOrigins);
    forall i | 0 <= i < |segments| ensures r[i] == segments[i] {
      SegmentsHaveNoSpace(corsOrigins, i);
      StripUntrimmed(segments[i]);
    }
    assert r == segments;
  }

  predicate NoSpace(t: string) {
    forall k :: 0 <= k < |t| ==> !IsSpace(t[k])
  }

  lemma SegmentsHaveNoSpace(s: string, i: nat)
    requires NoSpace(s)
    requires i < |Split(s, ',')|
    ensures NoSpace(Split(s, ',')[i])
  {
    var seg := Split(s, ',')[i];
    forall k | 0 <= k < |seg| ensures !IsSpace(seg[k]) {
      PartCharsFromString(s, ',', i, k);
    }
  }

  /** A setting made of two comma-free, already-trimmed origins yields exactly those two. */
  lemma {:induction false} TwoOrigins(a: string, b: string)
    requires ',' !in a && ',' !in b
    requires a == "" || (!IsSpace(a[0]) && !IsSpace(a[|a| - 1]))
    requires b == "" || (!IsSpace(b[0]) && !IsSpace(b[|b| - 1]))
    ensures CorsOriginsList(a + [','] + b) == [a, b]
  {
    SplitAfterSeparator(a, b, ',');
    SplitWithoutSeparator(b, ',');
    StripUntrimmed(a);
    StripUntrimmed(b);
  }

  /** The default setting allows exactly the local development front end and the
      deployed front end. */
  lemma DefaultOrigins()
    ensures CorsOriginsList(DefaultCorsOrigins) == [LocalFrontend, DeployedFrontend]
  {
    assert ',' !in LocalFrontend && !IsSpace(LocalFrontend[0]) && !IsSpace(LocalFrontend[|LocalFrontend| - 1]);
    assert ',' !in DeployedFrontend && !IsSpace(DeployedFrontend[0]) && !IsSpace(DeployedFrontend[|DeployedFrontend| - 1]);
    TwoOrigins(LocalFrontend, DeployedFrontend);
  }
}
