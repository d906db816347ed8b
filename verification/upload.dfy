/**
 * `allowed_file`: an uploaded file is accepted when its name has a dot and
 * the part after the last dot, lower-cased, is png, jpg or jpeg.
 */
module Upload {
  import opened Wrappers

  const AllowedExtensions: set<string> := {"png", "jpg", "jpeg"}

  /** `str.lower` on ASCII letters; every other character is kept. */
  function LowerChar(c: char): char {
    if 'A' <= c <= 'Z' then (c as int - 'A' as int + 'a' as int) as char else c
  }

  function Lower(s: string): (r: string)
    ensures |r| == |s| && forall k :: 0 <= k < |s| ==> r[k] == LowerChar(s[k])
  {
    if s == [] then [] else [LowerChar(s[0])] + Lower(s[1..])
  }

  /** The position of the last dot, which `rsplit('.', 1)` splits at. */
  function LastDot(s: string): (r: Option<nat>)
    ensures r.None? <==> '.' !in s
    ensures r.Some? ==> r.value < |s| && s[r.value] == '.' && '.' !in s[r.value + 1..]
  {
    if s == [] then None
    else if s[|s| - 1] == '.' then Some(|s| - 1)
    else
      var r := LastDot(s[..|s| - 1]);
      assert r.Some? ==> s[r.value + 1..] == s[..|s| - 1][r.value + 1..] + [s[|s| - 1]];
      assert '.' !in s[..|s| - 1] ==> '.' !in s by {
        assert s == s[..|s| - 1] + [s[|s| - 1]];
      }
      r
  }

  /** `filename.rsplit('.', 1)[1]`. */
  function Extension(s: string): string
    requires '.' in s
  {
    s[LastDot(s).value + 1..]
  }

  predicate AllowedFile(filename: string) {
    '.' in filename && Lower(Extension(filename)) in AllowedExtensions
  }

  /** The last dot is the only index holding a dot with none after it. */
  lemma LastDotUnique(s: string, i: nat)
    requires i < |s| && s[i] == '.' && '.' !in s[i + 1..]
    ensures LastDot(s) == Some(i)
  {
  }

  /** A name `base.ext` whose extension has no dot is accepted exactly when `ext`, lower-cased, is allowed. */
  lemma AllowedFileOfName(base: string, ext: string)
    requires '.' !in ext
    ensures AllowedFile(base + "." + ext) <==> Lower(ext) in AllowedExtensions
  {
    var s := base + "." + ext;
    assert s[|base|] == '.';
    assert s[|base| + 1..] == ext;
    LastDotUnique(s, |base|);
  }

  /** Accepted names are exactly `base.ext` with an allowed, dot-free `ext`. */
  lemma AllowedFileFacts(s: string)
    ensures AllowedFile(s) <==>
      exists base, ext :: '.' !in ext && s == base + "." + ext && Lower(ext) in AllowedExtensions
  {
    if AllowedFile(s) {
      var i := LastDot(s).value;
      assert s == s[..i] + "." + s[i + 1..];
      AllowedFileOfName(s[..i], s[i + 1..]);
    }
    if exists base, ext :: '.' !in ext && s == base + "." + ext && Lower(ext) in AllowedExtensions {
      var base, ext :| '.' !in ext && s == base + "." + ext && Lower(ext) in AllowedExtensions;
      AllowedFileOfName(base, ext);
    }
  }

  lemma LowerIdempotent(s: string)
    ensures Lower(Lower(s)) == Lower(s)
  {
  }

  lemma LowerSlice(s: string, i: nat)
    requires i <= |s|
    ensures Lower(s)[i..] == Lower(s[i..])
  {
  }

  /** The check ignores letter case: a name and its lower-cased form are accepted alike. */
  lemma AllowedFileIgnoresCase(s: string)
    ensures AllowedFile(Lower(s)) <==> AllowedFile(s)
  {
    var l := Lower(s);
    if '.' in s {
      var i := LastDot(s).value;
      assert l[i] == '.';
      assert '.' !in l[i + 1..] by {
        forall k | i + 1 <= k < |l| ensures l[k] != '.' {
          assert s[i + 1..][k - i - 1] == s[k];
        }
      }
      LastDotUnique(l, i);
      LowerSlice(s, i + 1);
      LowerIdempotent(s[i + 1..]);
      assert Extension(l) == Lower(Extension(s));
    } else {
      assert '.' !in l by {
        forall k | 0 <= k < |l| ensures l[k] != '.' {
          assert s[k] in s;
        }
      }
    }
  }

  lemma UpperCaseExtensionExample()
    ensures AllowedFile("page1.PNG")
  {
    AllowedFileOfName("page1", "PNG");
    assert Lower("PNG") == "png" by {
      assert Lower("G") == "g";
      assert Lower("NG") == "ng";
    }
    assert "page1" + "." + "PNG" == "page1.PNG";
  }

  lemma LastDotExample()
    ensures AllowedFile("scan.v2.jpeg")
  {
    AllowedFileOfName("scan.v2", "jpeg");
    assert Lower("jpeg") == "jpeg" by {
      assert Lower("g") == "g";
      assert Lower("eg") == "eg";
      assert Lower("peg") == "peg";
    }
    assert "scan.v2" + "." + "jpeg" == "scan.v2.jpeg";
  }

  lemma RejectedExamples()
    ensures !AllowedFile("notes.pdf")
    ensures !AllowedFile("png")
  {
    AllowedFileOfName("notes", "pdf");
    assert Lower("pdf") == "pdf" by {
      assert Lower("f") == "f";
      assert Lower("df") == "df";
    }
    assert "notes" + "." + "pdf" == "notes.pdf";
    assert '.' !in "png";
  }
}
