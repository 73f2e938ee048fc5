/**
 * The classifier that decides whether an argument names an S3 object or a
 * local file. An S3 path is split into a client, a bucket and a key prefix;
 * anything else is resolved to an absolute local path. The S3 service and the
 * file system are reached only through two oracles given as parameters:
 * whether `head_bucket` succeeds for a bucket, and what `os.path.abspath`
 * returns (`None` for an `OSError`).
 */
module IoUtils {
  import opened PyStr

  const S3Tag: string := "s3:"
  const S3BucketPos: nat := 2

  /** The argument: a string, or a value of some other type. */
  datatype Arg = Text(s: string) | NotText

  /** A client made from a session with the given profile. */
  datatype S3Client = S3Client(profile: Option<string>)

  /** `(s3_client or None, bucket_name or None, prefix or abs_path or None)` */
  datatype CheckResult = CheckResult(client: Option<S3Client>, bucket: Option<string>, path: Option<string>)

  const Nothing: CheckResult := CheckResult(None, None, None)

  /** The bucket test: 3 to 63 characters and `islower()`. */
  predicate ValidBucketName(b: string) {
    b != "" && 3 <= |b| <= 63 && IsLower(b)
  }

  /** Backslashes become forward slashes. */
  function Normalise(s: string): string {
    ReplaceChar(s, '\\', '/')
  }

  /** The string takes the S3 branch: it starts with the tag and has a
      column at the bucket position. */
  predicate S3Shaped(s: string) {
    StartsWith(s, S3Tag) && |Split(s, '/')| > S3BucketPos
  }

  /** `s3_check(in_string, profile_name)` */
  function S3Check(arg: Arg, profile: Option<string>, bucketExists: string -> bool,
                   abspath: string -> Option<string>): (r: CheckResult)
    ensures r != Nothing ==> arg.Text? && StripSpace(arg.s) != ""
    ensures arg.Text? && StripSpace(arg.s) != "" ==> r == Classify(Normalise(arg.s), profile, bucketExists, abspath)
    ensures r.client.Some? ==> r.bucket.Some? && ValidBucketName(r.bucket.value) && bucketExists(r.bucket.value)
    ensures r.client.None? ==> r.bucket.None?
  {
    if arg.NotText? || StripSpace(arg.s) == "" then Nothing
    else Classify(Normalise(arg.s), profile, bucketExists, abspath)
  }

  /** The normalised string goes to the S3 branch or to the local one. */
  function Classify(s: string, profile: Option<string>, bucketExists: string -> bool,
                    abspath: string -> Option<string>): (r: CheckResult)
    ensures !S3Shaped(s) ==> r.client.None? && r.bucket.None? && r.path == abspath(s)
    ensures S3Shaped(s) && !StartsWith(s, "s3://") ==> r == Nothing
    ensures r.client.Some? ==>
      S3Shaped(s) && StartsWith(s, "s3://") && r.bucket == Some(Split(s, '/')[S3BucketPos]) &&
      ValidBucketName(r.bucket.value) && bucketExists(r.bucket.value)
    ensures r.client.None? ==> r.bucket.None?
  {
    var cols := Split(s, '/');
    if StartsWith(s, S3Tag) && |cols| > S3BucketPos then
      if !StartsWith(s, "s3://") then Nothing
      else FromBucket(cols[S3BucketPos], cols[S3BucketPos + 1..], profile, bucketExists)
    else
      match abspath(s)
      case Some(p) => CheckResult(None, None, Some(p))
      case None => Nothing
  }

  /** The S3 branch once the double slash is checked: the bucket column and
      the columns after it. */
  function FromBucket(bucket: string, rest: seq<string>, profile: Option<string>,
                      bucketExists: string -> bool): (r: CheckResult)
    ensures r.client.Some? ==>
      r.bucket == Some(bucket) && ValidBucketName(bucket) && bucketExists(bucket) &&
      (r.path.Some? ==> r.path.value != "" && r.path.value[0] != '/' && r.path.value[|r.path.value| - 1] != '/')
    ensures r.client.None? ==> r == Nothing
    ensures ValidBucketName(bucket) && bucketExists(bucket) ==>
      r.client == Some(S3Client(profile)) && r.bucket == Some(bucket)
    ensures var j := Join(rest, '/');
      r.client.Some? ==>
        (r.path.None? <==> forall i :: 0 <= i < |j| ==> j[i] == '/') &&
        (r.path.Some? ==>
          exists lo, hi :: 0 <= lo <= hi <= |j| && j[lo..hi] == r.path.value &&
            (forall k :: 0 <= k < lo ==> j[k] == '/') && (forall k :: hi <= k < |j| ==> j[k] == '/'))
  {
    if !ValidBucketName(bucket) then Nothing
    else if !bucketExists(bucket) then Nothing
    else
      var prefix := Strip(Join(rest, '/'), {'/'});
      StripProperties(Join(rest, '/'), {'/'});
      assert (prefix == []) <==> forall i :: 0 <= i < |Join(rest, '/')| ==> Join(rest, '/')[i] == '/' by {
        var j := Join(rest, '/');
        assert (forall i :: 0 <= i < |j| ==> j[i] in {'/'}) <==> (forall i :: 0 <= i < |j| ==> j[i] == '/');
      }
      if |prefix| < 1 then CheckResult(Some(S3Client(profile)), Some(bucket), None)
      else CheckResult(Some(S3Client(profile)), Some(bucket), Some(prefix))
  }

  /** The test for a blank argument: `strip()` leaves nothing exactly when
      every character is whitespace. */
  lemma BlankIffAllWhitespace(s: string)
    ensures StripSpace(s) == "" <==> forall i :: 0 <= i < |s| ==> s[i] in Whitespace
  {
    StripProperties(s, Whitespace);
  }

  /** A result with a client always names a valid, existing bucket and a
      prefix without outer slashes; a result without a client is either
      all `None` or the local path `abspath` gave. */
  lemma S3CheckResults(arg: Arg, profile: Option<string>, bucketExists: string -> bool,
                       abspath: string -> Option<string>)
    ensures var r := S3Check(arg, profile, bucketExists, abspath);
      (r.client.Some? ==>
        arg.Text? && r.bucket.Some? && ValidBucketName(r.bucket.value) && bucketExists(r.bucket.value) &&
        (r.path.Some? ==> r.path.value != "" && r.path.value[0] != '/' && r.path.value[|r.path.value| - 1] != '/')) &&
      (r.client.None? ==> r.bucket.None?) &&
      ((r.client.None? && r.path.Some?) <==>
        (arg.Text? && StripSpace(arg.s) != "" && !S3Shaped(Normalise(arg.s)) && abspath(Normalise(arg.s)).Some?)) &&
      (r.client.None? && r.path.Some? ==> r.path == abspath(Normalise(arg.s)))
  {
  }

  /** A non-string, an empty or an all-whitespace argument is rejected. */
  lemma InvalidInputRejected(arg: Arg, profile: Option<string>, bucketExists: string -> bool,
                             abspath: string -> Option<string>)
    requires arg.NotText? || forall i :: 0 <= i < |arg.s| ==> arg.s[i] in Whitespace
    ensures S3Check(arg, profile, bucketExists, abspath) == Nothing
  {
    if arg.Text? {
      BlankIffAllWhitespace(arg.s);
    }
  }

  /** Normalising backslashes is idempotent. */
  lemma NormaliseIdempotent(s: string)
    ensures Normalise(Normalise(s)) == Normalise(s)
    ensures '\\' !in Normalise(s)
  {
  }

  /** Backslashes are turned into slashes before anything else looks at the
      string: writing them as slashes in the first place changes nothing. */
  lemma BackslashesAreSlashes(s: string, profile: Option<string>, bucketExists: string -> bool,
                              abspath: string -> Option<string>)
    ensures S3Check(Text(Normalise(s)), profile, bucketExists, abspath) ==
            S3Check(Text(s), profile, bucketExists, abspath)
  {
    NormaliseIdempotent(s);
    NormalisePreservesBlank(s);
  }

  /** Normalising neither makes nor unmakes a blank string. */
  lemma NormalisePreservesBlank(s: string)
    ensures StripSpace(Normalise(s)) == "" <==> StripSpace(s) == ""
  {
    var n := Normalise(s);
    BlankIffAllWhitespace(s);
    BlankIffAllWhitespace(n);
    assert '\\' !in Whitespace && '/' !in Whitespace;
    assert forall i :: 0 <= i < |s| ==> (n[i] in Whitespace <==> s[i] in Whitespace);
  }

  /** A string that starts with `s` is not blank. */
  lemma NotBlank(s: string)
    requires s != [] && s[0] == 's'
    ensures StripSpace(s) != ""
  {
    assert 's' !in Whitespace;
    BlankIffAllWhitespace(s);
  }

  /** A string that starts with `s` and has no backslash goes to the
      classifier as it is. */
  lemma PlainText(s: string, profile: Option<string>, bucketExists: string -> bool,
                  abspath: string -> Option<string>)
    requires s != [] && s[0] == 's' && '\\' !in s
    ensures S3Check(Text(s), profile, bucketExists, abspath) == Classify(s, profile, bucketExists, abspath)
  {
    NormalWithoutBackslash(s);
    NotBlank(s);
  }

  /** A string that starts with the tag and has a bucket column but lacks
      the double slash is rejected. */
  lemma MissingDoubleSlashRejected(s: string, profile: Option<string>, bucketExists: string -> bool,
                                   abspath: string -> Option<string>)
    requires '\\' !in s && S3Shaped(s) && !StartsWith(s, "s3://")
    ensures S3Check(Text(s), profile, bucketExists, abspath) == Nothing
  {
    assert S3Check(Text(s), profile, bucketExists, abspath) == Classify(s, profile, bucketExists, abspath) by {
      NormalWithoutBackslash(s);
      assert s[0] == 's';
      NotBlank(s);
    }
  }

  /** `islower` needs a cased character: an all-digit bucket is rejected,
      as is any bucket with an upper-case letter. */
  lemma BucketNameExamples()
    ensures !ValidBucketName("123")
    ensures !ValidBucketName("myBucket")
    ensures !ValidBucketName("ab")
    ensures ValidBucketName("cypherid-public-references")
  {
    var u := "myBucket";
    assert IsAsciiUpper(u[2]);
    var c := "cypherid-public-references";
    assert IsAsciiLower(c[0]);
  }

  /** A string without backslashes is already normalised. */
  lemma NormalWithoutBackslash(s: string)
    requires '\\' !in s
    ensures Normalise(s) == s
  {
  }

  /** The canonical S3 path `s3://bucket/rest` as its columns glued by
      slashes. */
  lemma S3PathShape(bucket: string, rest: string)
    ensures "s3://" + bucket + "/" + rest == "s3:" + ['/'] + (['/'] + (bucket + ['/'] + rest))
  {
    var x := "s3://" + bucket + "/" + rest;
    var y := "s3:" + ['/'] + (['/'] + (bucket + ['/'] + rest));
    assert |x| == |y|;
    forall i | 0 <= i < |x|
      ensures x[i] == y[i]
    {
      if i < 5 {
      } else if i < 5 + |bucket| {
        assert x[i] == bucket[i - 5] == y[i];
      } else if i == 5 + |bucket| {
      } else {
        assert x[i] == rest[i - 6 - |bucket|] == y[i];
      }
    }
  }

  /** A slash, a bucket and a slash before the rest split into an empty
      column, the bucket and the columns of the rest. */
  lemma SplitLeadingSlash(bucket: string, rest: string, sep: char)
    requires sep !in bucket
    ensures Split([sep] + (bucket + [sep] + rest), sep) == [[], bucket] + Split(rest, sep)
  {
    SplitLeading(bucket + [sep] + rest, sep);
    SplitAt(bucket, rest, sep);
  }

  /** A tag, a double slash, a bucket and a slash before the rest split
      into the tag, an empty column, the bucket and the columns of the rest. */
  lemma SplitDoubleSlash(tag: string, bucket: string, rest: string, sep: char)
    requires sep !in tag && sep !in bucket
    ensures Split(tag + [sep] + ([sep] + (bucket + [sep] + rest)), sep) ==
            [tag, [], bucket] + Split(rest, sep)
  {
    SplitLeadingSlash(bucket, rest, sep);
    SplitAt(tag, [sep] + (bucket + [sep] + rest), sep);
  }

  /** How the canonical S3 path `s3://bucket/rest` splits into columns. */
  lemma S3PathColumns(bucket: string, rest: string)
    requires '/' !in bucket
    ensures Split("s3://" + bucket + "/" + rest, '/') == ["s3:", "", bucket] + Split(rest, '/')
  {
    S3PathShape(bucket, rest);
    SplitDoubleSlash("s3:", bucket, rest, '/');
  }

  /** How `s3://bucket` splits into columns. */
  lemma BareBucketColumns(bucket: string)
    requires '/' !in bucket
    ensures Split("s3://" + bucket, '/') == ["s3:", "", bucket]
  {
    SplitNone(bucket, '/');
    SplitAt([], bucket, '/');
    assert [] + ['/'] + bucket == ['/'] + bucket;
    SplitAt("s3:", ['/'] + bucket, '/');
    var x := "s3://" + bucket;
    var y := "s3:" + ['/'] + (['/'] + bucket);
    assert x == y by {
      assert |x| == |y|;
      forall i | 0 <= i < |x|
        ensures x[i] == y[i]
      {
        if i >= 5 {
          assert x[i] == bucket[i - 5] == y[i];
        }
      }
    }
  }

  /** The canonical S3 path starts with `s` and has a backslash only where
      the bucket or the rest has one. */
  lemma S3PathChars(bucket: string, rest: string)
    requires '\\' !in bucket && '\\' !in rest
    ensures var s := "s3://" + bucket + "/" + rest; s[0] == 's' && '\\' !in s
  {
    var s := "s3://" + bucket + "/" + rest;
    assert forall i :: 0 <= i < |s| ==>
      (s[i] == '/' || s[i] == 's' || s[i] == '3' || s[i] == ':' || s[i] in bucket || s[i] in rest);
  }

  /** A string with the `s3://` prefix and a bucket column goes to the
      bucket stage with column 2 and the columns after it. */
  lemma ClassifyS3(s: string, profile: Option<string>, bucketExists: string -> bool,
                   abspath: string -> Option<string>)
    requires StartsWith(s, "s3://") && StartsWith(s, S3Tag) && |Split(s, '/')| > S3BucketPos
    ensures Classify(s, profile, bucketExists, abspath) ==
            FromBucket(Split(s, '/')[S3BucketPos], Split(s, '/')[S3BucketPos + 1..], profile, bucketExists)
  {
  }

  /** A string that starts with `s3://`, has no backslash and splits into
      the bucket at column 2 and `rest` after it reaches the bucket stage
      with them. */
  lemma ReachesBucket(s: string, bucket: string, rest: seq<string>, profile: Option<string>,
                      bucketExists: string -> bool, abspath: string -> Option<string>)
    requires s != [] && s[0] == 's' && '\\' !in s
    requires StartsWith(s, "s3://") && StartsWith(s, S3Tag)
    requires |Split(s, '/')| > S3BucketPos && Split(s, '/')[S3BucketPos] == bucket
    requires Split(s, '/')[S3BucketPos + 1..] == rest
    ensures S3Check(Text(s), profile, bucketExists, abspath) == FromBucket(bucket, rest, profile, bucketExists)
  {
    PlainText(s, profile, bucketExists, abspath);
    ClassifyS3(s, profile, bucketExists, abspath);
  }

  /** A canonical S3 path reaches the bucket stage with its bucket and the
      columns of the rest. */
  lemma CanonicalS3Path(bucket: string, rest: string, profile: Option<string>,
                        bucketExists: string -> bool, abspath: string -> Option<string>)
    requires '/' !in bucket && '\\' !in bucket && '\\' !in rest
    ensures S3Check(Text("s3://" + bucket + "/" + rest), profile, bucketExists, abspath) ==
            FromBucket(bucket, Split(rest, '/'), profile, bucketExists)
  {
    var s := "s3://" + bucket + "/" + rest;
    assert s[0] == 's' && '\\' !in s by {
      S3PathChars(bucket, rest);
    }
    var cols := Split(s, '/');
    assert |cols| > S3BucketPos && cols[S3BucketPos] == bucket && cols[S3BucketPos + 1..] == Split(rest, '/') by {
      S3PathColumns(bucket, rest);
      assert (["s3:", "", bucket] + Split(rest, '/'))[S3BucketPos + 1..] == Split(rest, '/');
    }
    assert StartsWith(s, "s3://") && StartsWith(s, S3Tag) by {
      assert s[..5] == "s3://" && s[..3] == S3Tag;
    }
    ReachesBucket(s, bucket, Split(rest, '/'), profile, bucketExists, abspath);
  }

  /** `s3://bucket` reaches the bucket stage with no further columns. */
  lemma BareBucketPath(bucket: string, profile: Option<string>,
                       bucketExists: string -> bool, abspath: string -> Option<string>)
    requires '/' !in bucket && '\\' !in bucket
    ensures S3Check(Text("s3://" + bucket), profile, bucketExists, abspath) ==
            FromBucket(bucket, [], profile, bucketExists)
  {
    var s := "s3://" + bucket;
    assert S3Check(Text(s), profile, bucketExists, abspath) == Classify(s, profile, bucketExists, abspath) by {
      assert '\\' !in s by {
        assert forall i :: 0 <= i < |s| ==>
          (s[i] == '/' || s[i] == 's' || s[i] == '3' || s[i] == ':' || s[i] in bucket);
      }
      NormalWithoutBackslash(s);
      assert s[0] == 's';
      NotBlank(s);
    }
    var cols := Split(s, '/');
    assert cols == ["s3:", "", bucket] by {
      BareBucketColumns(bucket);
    }
    assert StartsWith(s, "s3://") && StartsWith(s, S3Tag) by {
      assert s[..5] == "s3://" && s[..3] == S3Tag;
    }
  }

  /** The canonical S3 path of an existing, validly named bucket and a
      prefix without outer slashes comes back apart: client, bucket and
      prefix. */
  lemma S3PathRoundTrip(bucket: string, prefix: string, profile: Option<string>,
                        bucketExists: string -> bool, abspath: string -> Option<string>)
    requires ValidBucketName(bucket) && bucketExists(bucket)
    requires '/' !in bucket && '\\' !in bucket && '\\' !in prefix
    requires prefix != "" && prefix[0] != '/' && prefix[|prefix| - 1] != '/'
    ensures S3Check(Text("s3://" + bucket + "/" + prefix), profile, bucketExists, abspath) ==
            CheckResult(Some(S3Client(profile)), Some(bucket), Some(prefix))
  {
    CanonicalS3Path(bucket, prefix, profile, bucketExists, abspath);
    assert Join(Split(prefix, '/'), '/') == prefix by {
      SplitProperties(prefix, '/');
    }
    StripUnchanged(prefix, {'/'});
  }

  /** Slashes around the key are dropped: `s3://bucket//key/` gives the
      same key as `s3://bucket/key`. */
  lemma OuterSlashesStripped(bucket: string, prefix: string, profile: Option<string>,
                             bucketExists: string -> bool, abspath: string -> Option<string>)
    requires ValidBucketName(bucket) && bucketExists(bucket)
    requires '/' !in bucket && '\\' !in bucket && '\\' !in prefix
    requires prefix != "" && prefix[0] != '/' && prefix[|prefix| - 1] != '/'
    ensures S3Check(Text("s3://" + bucket + "/" + (['/'] + prefix + ['/'])), profile, bucketExists, abspath) ==
            CheckResult(Some(S3Client(profile)), Some(bucket), Some(prefix))
  {
    var rest := ['/'] + prefix + ['/'];
    assert '\\' !in rest;
    CanonicalS3Path(bucket, rest, profile, bucketExists, abspath);
    assert Join(Split(rest, '/'), '/') == rest by {
      SplitProperties(rest, '/');
    }
    StripPadded(prefix, '/', {'/'});
  }

  /** A key made of slashes only, as in `s3://bucket//`, is no key. */
  lemma SlashOnlyPrefix(bucket: string, slashes: string, profile: Option<string>,
                        bucketExists: string -> bool, abspath: string -> Option<string>)
    requires ValidBucketName(bucket) && bucketExists(bucket)
    requires '/' !in bucket && '\\' !in bucket
    requires forall i :: 0 <= i < |slashes| ==> slashes[i] == '/'
    ensures S3Check(Text("s3://" + bucket + "/" + slashes), profile, bucketExists, abspath) ==
            CheckResult(Some(S3Client(profile)), Some(bucket), None)
  {
    assert '\\' !in slashes;
    CanonicalS3Path(bucket, slashes, profile, bucketExists, abspath);
    assert Join(Split(slashes, '/'), '/') == slashes by {
      SplitProperties(slashes, '/');
    }
  }

  /** A bare bucket, or one followed by a single slash, has no prefix: the
      client and the bucket come back with `None` for the prefix. */
  lemma EmptyPrefix(bucket: string, profile: Option<string>,
                    bucketExists: string -> bool, abspath: string -> Option<string>)
    requires ValidBucketName(bucket) && bucketExists(bucket)
    requires '/' !in bucket && '\\' !in bucket
    ensures S3Check(Text("s3://" + bucket), profile, bucketExists, abspath) ==
            CheckResult(Some(S3Client(profile)), Some(bucket), None)
    ensures S3Check(Text("s3://" + bucket + "/"), profile, bucketExists, abspath) ==
            CheckResult(Some(S3Client(profile)), Some(bucket), None)
  {
    BareBucketPath(bucket, profile, bucketExists, abspath);
    CanonicalS3Path(bucket, "", profile, bucketExists, abspath);
    assert "s3://" + bucket + "/" + "" == "s3://" + bucket + "/";
    assert Split("", '/') == [""] by {
      SplitNone("", '/');
    }
    assert Strip("", {'/'}) == "" by {
      StripProperties("", {'/'});
    }
  }

  /** A bucket the service does not acknowledge gives nothing back. */
  lemma MissingBucketRejected(bucket: string, prefix: string, profile: Option<string>,
                              bucketExists: string -> bool, abspath: string -> Option<string>)
    requires !bucketExists(bucket)
    requires '/' !in bucket && '\\' !in bucket && '\\' !in prefix
    ensures S3Check(Text("s3://" + bucket + "/" + prefix), profile, bucketExists, abspath) == Nothing
  {
    CanonicalS3Path(bucket, prefix, profile, bucketExists, abspath);
  }

  /** A string with the tag but without a bucket column, such as `s3:x`,
      is treated as a local path. */
  lemma ShortTagIsLocal(profile: Option<string>, bucketExists: string -> bool,
                        abspath: string -> Option<string>)
    ensures S3Check(Text("s3:x"), profile, bucketExists, abspath) ==
            match abspath("s3:x")
            case Some(p) => CheckResult(None, None, Some(p))
            case None => Nothing
  {
    var s := "s3:x";
    assert S3Check(Text(s), profile, bucketExists, abspath) == Classify(s, profile, bucketExists, abspath) by {
      NormalWithoutBackslash(s);
      NotBlank(s);
    }
    assert |Split(s, '/')| == 1 by {
      SplitNone(s, '/');
    }
  }

  /** The path of the module's own tests on the public-references bucket,
      `s3://cypherid-public-references/hi.txt`, gives a client, the bucket
      and the key. */
  lemma TestS3Path(profile: Option<string>, bucketExists: string -> bool,
                   abspath: string -> Option<string>)
    requires bucketExists("cypherid-public-references")
    ensures S3Check(Text("s3://" + "cypherid-public-references" + "/" + "hi.txt"), profile, bucketExists, abspath) ==
      CheckResult(Some(S3Client(profile)), Some("cypherid-public-references"), Some("hi.txt"))
  {
    var good, key := "cypherid-public-references", "hi.txt";
    assert ValidBucketName(good) by {
      BucketNameExamples();
    }
    assert '/' !in good && '\\' !in good by {
      assert forall i :: 0 <= i < |good| ==> good[i] != '/' && good[i] != '\\';
    }
    assert '\\' !in key && key[0] != '/' && key[|key| - 1] != '/' by {
      assert forall i :: 0 <= i < |key| ==> key[i] != '\\';
    }
    S3PathRoundTrip(good, key, profile, bucketExists, abspath);
  }

  /** The test's bad-bucket path, `s3://idontexist/hi.txt`, names a valid
      bucket, so what it gives depends on the service alone: nothing, when
      the bucket is not acknowledged. */
  lemma TestBadBucketPath(profile: Option<string>, bucketExists: string -> bool,
                          abspath: string -> Option<string>)
    requires !bucketExists("idontexist")
    ensures ValidBucketName("idontexist")
    ensures S3Check(Text("s3://" + "idontexist" + "/" + "hi.txt"), profile, bucketExists, abspath) == Nothing
  {
    var bad, key := "idontexist", "hi.txt";
    assert ValidBucketName(bad) by {
      assert IsAsciiLower(bad[0]);
    }
    assert '/' !in bad && '\\' !in bad by {
      assert forall i :: 0 <= i < |bad| ==> bad[i] != '/' && bad[i] != '\\';
    }
    assert '\\' !in key by {
      assert forall i :: 0 <= i < |key| ==> key[i] != '\\';
    }
    MissingBucketRejected(bad, key, profile, bucketExists, abspath);
  }
}
