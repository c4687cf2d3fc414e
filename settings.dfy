/**
 * The settings screen's preference migration: the single-stream keys of
 * older versions are copied to the stream 1 and stream 2 keys, once.
 */
module Settings {
  import opened Wrappers

  /** The single-stream keys of older versions; the first one decides. */
  const LegacyUrlKey: string := "rtsp_url"
  const LegacyKeys: set<string> := {"rtsp_url", "rtsp_username", "rtsp_password", "video_width", "video_height"}
  /** Stream 1 and stream 2 keys are the legacy key with one of these appended. */
  const StreamSuffixes: set<string> := {"_1", "_2"}

  /** The ten keys the migration can write. */
  function TargetKeys(): set<string>
  {
    set k, s | k in LegacyKeys && s in StreamSuffixes :: k + s
  }

  /** The application's default SharedPreferences, string values only. */
  class SharedPreferences {
    var entries: map<string, string>

    constructor (initial: map<string, string>)
      ensures entries == initial
    {
      entries := initial;
    }
  }

  /** getString(key, null) */
  function GetString(m: map<string, string>, key: string): Option<string>
  {
    if key in m then Some(m[key]) else None
  }

  /** The migration runs when the legacy URL is set and stream 1's is not. */
  predicate ShouldMigrate(m: map<string, string>)
  {
    LegacyUrlKey in m && LegacyUrlKey + "_1" !in m
  }

  /** The legacy key a target key is copied from: the target minus its suffix. */
  function SourceKey(target: string): string
  {
    if |target| >= 2 then target[..|target| - 2] else target
  }

  /** The copies the migration makes: every target whose legacy key is set,
      mapped to that key's value. */
  function Copies(m: map<string, string>): map<string, string>
  {
    map t | t in TargetKeys() && SourceKey(t) in m :: m[SourceKey(t)]
  }

  /** The store after the migration: unchanged unless it should migrate, and
      then overridden by the copies. */
  function Migrated(m: map<string, string>): map<string, string>
  {
    if ShouldMigrate(m) then m + Copies(m) else m
  }

  /** The key keeps its entry, or its absence. */
  predicate SameAt(m: map<string, string>, r: map<string, string>, key: string)
  {
    (key in r <==> key in m) && (key in m ==> r[key] == m[key])
  }

  lemma SourceOfStreamKey(key: string, suffix: string)
    requires suffix in StreamSuffixes
    ensures key + suffix in TargetKeys() <==> key in LegacyKeys
    ensures SourceKey(key + suffix) == key
  {
    assert (key + suffix)[..|key + suffix| - 2] == key;
    if key + suffix in TargetKeys() {
      var k, s :| k in LegacyKeys && s in StreamSuffixes && key + suffix == k + s;
      assert (k + s)[..|k + s| - 2] == k;
    }
  }

  /** Without the legacy URL the store is unchanged. */
  lemma NoLegacyUrlNoChange(m: map<string, string>)
    requires LegacyUrlKey !in m
    ensures Migrated(m) == m
  {
  }

  /** Once stream 1 has a URL the store is unchanged. */
  lemma AlreadyMigratedNoChange(m: map<string, string>)
    requires "rtsp_url_1" in m
    ensures Migrated(m) == m
  {
    assert LegacyUrlKey + "_1" == "rtsp_url_1";
  }

  /** Each legacy key is copied to both of its stream keys iff it is set;
      when it is not, its stream keys keep what they had. */
  lemma FieldCopiedIffPresent(m: map<string, string>, key: string, suffix: string)
    requires ShouldMigrate(m) && key in LegacyKeys && suffix in StreamSuffixes
    ensures key in m ==> key + suffix in Migrated(m) && Migrated(m)[key + suffix] == m[key]
    ensures key !in m ==> SameAt(m, Migrated(m), key + suffix)
  {
    SourceOfStreamKey(key, suffix);
  }

  /** In particular both streams get the legacy URL. */
  lemma UrlCopiedToBothStreams(m: map<string, string>)
    requires ShouldMigrate(m)
    ensures "rtsp_url_1" in Migrated(m) && Migrated(m)["rtsp_url_1"] == m[LegacyUrlKey]
    ensures "rtsp_url_2" in Migrated(m) && Migrated(m)["rtsp_url_2"] == m[LegacyUrlKey]
  {
    FieldCopiedIffPresent(m, LegacyUrlKey, "_1");
    FieldCopiedIffPresent(m, LegacyUrlKey, "_2");
    assert LegacyUrlKey + "_1" == "rtsp_url_1";
    assert LegacyUrlKey + "_2" == "rtsp_url_2";
  }

  /** Every key outside the ten targets keeps its entry; in particular the
      legacy keys are not removed. */
  lemma OtherKeysUnchanged(m: map<string, string>, key: string)
    requires key !in TargetKeys()
    ensures SameAt(m, Migrated(m), key)
  {
  }

  /** The legacy keys are kept: the migration copies and never removes. */
  lemma LegacyKeysKept(m: map<string, string>, key: string)
    requires key in LegacyKeys
    ensures SameAt(m, Migrated(m), key)
  {
    forall k, s | k in LegacyKeys && s in StreamSuffixes
      ensures key != k + s
    {
      assert (k + s)[|k + s| - 2] == '_';
      assert |key| >= 2 && key[|key| - 2] != '_';
    }
  }

  /** A second migration changes nothing: the first one set stream 1's URL. */
  lemma MigrationIdempotent(m: map<string, string>)
    ensures Migrated(Migrated(m)) == Migrated(m)
  {
    if ShouldMigrate(m) {
      UrlCopiedToBothStreams(m);
      AlreadyMigratedNoChange(Migrated(m));
    }
  }

  /** migrateOldPreferences: read the five legacy keys, and if the legacy URL
      is set and stream 1 has none, put each set value under its _1 and _2
      keys through one editor and apply it. */
  method MigrateOldPreferences(sharedPreferences: SharedPreferences)
    modifies sharedPreferences
    ensures sharedPreferences.entries == Migrated(old(sharedPreferences.entries))
  {
    ghost var m := sharedPreferences.entries;
    var editor := sharedPreferences.entries;

    var oldRtspUrl := GetString(sharedPreferences.entries, "rtsp_url");
    var oldRtspUsername := GetString(sharedPreferences.entries, "rtsp_username");
    var oldRtspPassword := GetString(sharedPreferences.entries, "rtsp_password");
    var oldVideoWidth := GetString(sharedPreferences.entries, "video_width");
    var oldVideoHeight := GetString(sharedPreferences.entries, "video_height");

    var hasNewStream1 := "rtsp_url_1" in sharedPreferences.entries;
    StreamKeysSpelled();
    StreamKeysListed();

    if oldRtspUrl.Some? && !hasNewStream1 {
      editor := editor["rtsp_url_1" := oldRtspUrl.value];
      if oldRtspUsername.Some? { editor := editor["rtsp_username_1" := oldRtspUsername.value]; }
      if oldRtspPassword.Some? { editor := editor["rtsp_password_1" := oldRtspPassword.value]; }
      if oldVideoWidth.Some? { editor := editor["video_width_1" := oldVideoWidth.value]; }
      if oldVideoHeight.Some? { editor := editor["video_height_1" := oldVideoHeight.value]; }
      assert editor == CopyToStream(m, m, "_1");
      CopyToStreamEffect(m, m, "_1");
      ghost var stream1 := editor;

      editor := editor["rtsp_url_2" := oldRtspUrl.value];
      if oldRtspUsername.Some? { editor := editor["rtsp_username_2" := oldRtspUsername.value]; }
      if oldRtspPassword.Some? { editor := editor["rtsp_password_2" := oldRtspPassword.value]; }
      if oldVideoWidth.Some? { editor := editor["video_width_2" := oldVideoWidth.value]; }
      if oldVideoHeight.Some? { editor := editor["video_height_2" := oldVideoHeight.value]; }
      assert editor == CopyToStream(m, stream1, "_2");
      CopyToStreamEffect(m, stream1, "_2");

      sharedPreferences.entries := editor;
      MigrationMatches(m, stream1, editor);
    }
  }

  /** Each legacy key with each suffix appended, spelled out. */
  lemma StreamKeysSpelled()
    ensures "rtsp_url" + "_1" == "rtsp_url_1" && "rtsp_url" + "_2" == "rtsp_url_2"
    ensures "rtsp_username" + "_1" == "rtsp_username_1" && "rtsp_username" + "_2" == "rtsp_username_2"
    ensures "rtsp_password" + "_1" == "rtsp_password_1" && "rtsp_password" + "_2" == "rtsp_password_2"
    ensures "video_width" + "_1" == "video_width_1" && "video_width" + "_2" == "video_width_2"
    ensures "video_height" + "_1" == "video_height_1" && "video_height" + "_2" == "video_height_2"
  {
  }

  /** The keys one stream's puts can write. */
  function StreamKeys(suffix: string): set<string>
  {
    set k | k in LegacyKeys :: k + suffix
  }

  lemma StreamKeysListed()
    ensures StreamKeys("_1") == {"rtsp_url_1", "rtsp_username_1", "rtsp_password_1", "video_width_1", "video_height_1"}
    ensures StreamKeys("_2") == {"rtsp_url_2", "rtsp_username_2", "rtsp_password_2", "video_width_2", "video_height_2"}
  {
    StreamKeysSpelled();
  }

  /** r differs from m at most at the keys of one stream. */
  ghost predicate OnlyStreamKeysWritten(m: map<string, string>, r: map<string, string>, suffix: string)
  {
    forall key | key !in StreamKeys(suffix) :: SameAt(m, r, key)
  }

  /** Each legacy key that is set in src has its value under key + suffix in
      r; for each one that is not, key + suffix is as it was in before. */
  predicate CopiedUnder(src: map<string, string>, before: map<string, string>, r: map<string, string>, suffix: string)
  {
    forall k | k in LegacyKeys ::
      (k in src ==> k + suffix in r && r[k + suffix] == src[k]) && (k !in src ==> SameAt(before, r, k + suffix))
  }

  /** putString(key, value) when the value is present. */
  function PutIfSet(e: map<string, string>, key: string, value: Option<string>): map<string, string>
  {
    if value.Some? then e[key := value.value] else e
  }

  /** One "copy to stream" block: the legacy URL and every other legacy value
      that is set in src, put under its key + suffix on top of before. */
  function CopyToStream(src: map<string, string>, before: map<string, string>, suffix: string): map<string, string>
    requires LegacyUrlKey in src
  {
    var e := before[LegacyUrlKey + suffix := src[LegacyUrlKey]];
    var e := PutIfSet(e, "rtsp_username" + suffix, GetString(src, "rtsp_username"));
    var e := PutIfSet(e, "rtsp_password" + suffix, GetString(src, "rtsp_password"));
    var e := PutIfSet(e, "video_width" + suffix, GetString(src, "video_width"));
    PutIfSet(e, "video_height" + suffix, GetString(src, "video_height"))
  }

  lemma AppendCancel(a: string, b: string, suffix: string)
    ensures a + suffix == b + suffix ==> a == b
  {
    if a + suffix == b + suffix {
      assert a == (a + suffix)[..|a|];
      assert b == (b + suffix)[..|b|];
    }
  }

  /** A copy block copies every set legacy value and writes only its stream's keys. */
  lemma CopyToStreamEffect(src: map<string, string>, before: map<string, string>, suffix: string)
    requires LegacyUrlKey in src
    ensures CopiedUnder(src, before, CopyToStream(src, before, suffix), suffix)
    ensures OnlyStreamKeysWritten(before, CopyToStream(src, before, suffix), suffix)
  {
    CopyToStreamCopies(src, before, suffix);
    CopyToStreamFrame(src, before, suffix);
  }

  lemma CopyToStreamCopies(src: map<string, string>, before: map<string, string>, suffix: string)
    requires LegacyUrlKey in src
    ensures CopiedUnder(src, before, CopyToStream(src, before, suffix), suffix)
  {
    var url, user, pass, w, h := "rtsp_url" + suffix, "rtsp_username" + suffix, "rtsp_password" + suffix,
                                 "video_width" + suffix, "video_height" + suffix;
    AppendCancel("rtsp_url", "rtsp_username", suffix);
    AppendCancel("rtsp_url", "rtsp_password", suffix);
    AppendCancel("rtsp_url", "video_width", suffix);
    AppendCancel("rtsp_url", "video_height", suffix);
    AppendCancel("rtsp_username", "rtsp_password", suffix);
    AppendCancel("rtsp_username", "video_width", suffix);
    AppendCancel("rtsp_username", "video_height", suffix);
    AppendCancel("rtsp_password", "video_width", suffix);
    AppendCancel("rtsp_password", "video_height", suffix);
    AppendCancel("video_width", "video_height", suffix);
    assert url != user && url != pass && url != w && url != h;
    assert user != pass && user != w && user != h;
    assert pass != w && pass != h && w != h;
  }

  lemma CopyToStreamFrame(src: map<string, string>, before: map<string, string>, suffix: string)
    requires LegacyUrlKey in src
    ensures OnlyStreamKeysWritten(before, CopyToStream(src, before, suffix), suffix)
  {
    forall key | key !in StreamKeys(suffix)
      ensures SameAt(before, CopyToStream(src, before, suffix), key)
    {
      assert "rtsp_url" in LegacyKeys && "rtsp_username" in LegacyKeys && "rtsp_password" in LegacyKeys;
      assert "video_width" in LegacyKeys && "video_height" in LegacyKeys;
    }
  }

  /** Keys with different two-character suffixes differ. */
  lemma SuffixesApart(k1: string, k2: string)
    ensures k1 + "_1" != k2 + "_2"
  {
    var a, b := k1 + "_1", k2 + "_2";
    if |a| == |b| {
      assert a[|a| - 1] != b[|b| - 1];
    }
  }

  /** The two stages of puts, stream 1 then stream 2, together make Migrated. */
  lemma MigrationMatches(m: map<string, string>, stream1: map<string, string>, r: map<string, string>)
    requires ShouldMigrate(m)
    requires CopiedUnder(m, m, stream1, "_1") && OnlyStreamKeysWritten(m, stream1, "_1")
    requires CopiedUnder(m, stream1, r, "_2") && OnlyStreamKeysWritten(stream1, r, "_2")
    ensures r == Migrated(m)
  {
    var g := Migrated(m);
    forall key
      ensures (key in r <==> key in g) && (key in r ==> r[key] == g[key])
    {
      if key in TargetKeys() {
        var k, s :| k in LegacyKeys && s in StreamSuffixes && key == k + s;
        SourceOfStreamKey(k, s);
        if s == "_1" {
          forall k2 | k2 in LegacyKeys ensures key != k2 + "_2" { SuffixesApart(k, k2); }
          assert key !in StreamKeys("_2");
        } else {
          assert SameAt(m, stream1, key);
        }
      } else {
        forall k2 | k2 in LegacyKeys ensures key != k2 + "_1" && key != k2 + "_2" {
          SourceOfStreamKey(k2, "_1");
          SourceOfStreamKey(k2, "_2");
        }
        assert key !in StreamKeys("_1") && key !in StreamKeys("_2");
      }
    }
  }

  /** onPreferenceChange: every new value is accepted. */
  method OnPreferenceChange(key: string, newValue: Option<string>) returns (accepted: bool)
    ensures accepted
  {
    accepted := true;
  }
}
