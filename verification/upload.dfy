/** The upload endpoint's filename: `{now}-{random}-{safe}`, where `safe`
    is the client's original name with every maximal run of whitespace
    replaced by one underscore (the global replace of `/\s+/`). */
module Upload {
  import opened JsValue
  import Decimal

  /** The characters the regular-expression class `\s` matches: the ASCII
      blanks, the no-break and ideographic spaces, the Unicode space
      separators, the line and paragraph separators and the byte-order
      mark. */
  predicate IsSpace(c: char) {
    var n := c as int;
    || (0x09 <= n <= 0x0D) || n == 0x20 || n == 0xA0 || n == 0x1680
    || (0x2000 <= n <= 0x200A) || n == 0x2028 || n == 0x2029
    || n == 0x202F || n == 0x205F || n == 0x3000 || n == 0xFEFF
  }

  predicate NoSpace(s: string) {
    forall i :: 0 <= i < |s| ==> !IsSpace(s[i])
  }

  predicate AllSpace(s: string) {
    forall i :: 0 <= i < |s| ==> IsSpace(s[i])
  }

  /** `s` without its leading run of whitespace. */
  function DropRun(s: string): (r: string)
    ensures |r| <= |s|
    ensures s != [] && IsSpace(s[0]) ==> |r| < |s|
    decreases |s|
  {
    if s != [] && IsSpace(s[0]) then DropRun(s[1..]) else s
  }

  /** What `DropRun` removes is whitespace, and what it keeps is the rest of
      `s`, starting at a character that is not whitespace. */
  lemma {:induction false} DropRunSplits(s: string)
    ensures var r := DropRun(s);
            && r == s[|s| - |r|..]
            && AllSpace(s[..|s| - |r|])
            && (r == [] || !IsSpace(r[0]))
    decreases |s|
  {
    if s != [] && IsSpace(s[0]) {
      DropRunSplits(s[1..]);
      var r := DropRun(s);
      assert s[1..][..|s| - 1 - |r|] == s[1..|s| - |r|];
      assert s[..|s| - |r|] == [s[0]] + s[1..|s| - |r|];
    }
  }

  /** The sanitised name: each maximal whitespace run becomes one '_'. */
  function Sanitize(s: string): (r: string)
    ensures |r| <= |s|
    decreases |s|
  {
    if s == [] then []
    else if IsSpace(s[0]) then "_" + Sanitize(DropRun(s))
    else [s[0]] + Sanitize(s[1..])
  }

  /** A sanitised name contains no whitespace. */
  lemma {:induction false} SanitizeNoSpace(s: string)
    ensures NoSpace(Sanitize(s))
    decreases |s|
  {
    if s != [] {
      var rest := if IsSpace(s[0]) then DropRun(s) else s[1..];
      SanitizeNoSpace(rest);
      var r := Sanitize(s);
      assert !IsSpace(r[0]);
      assert forall i :: 1 <= i < |r| ==> r[i] == Sanitize(rest)[i - 1];
    }
  }

  /** A name without whitespace is kept as it is, and only such a name is. */
  lemma {:induction false} SanitizeIdentity(s: string)
    ensures Sanitize(s) == s <==> NoSpace(s)
    decreases |s|
  {
    if s != [] {
      if IsSpace(s[0]) {
        assert Sanitize(s)[0] == '_';
      } else {
        SanitizeIdentity(s[1..]);
        assert NoSpace(s) <==> NoSpace(s[1..]) by {
          assert forall i :: 1 <= i < |s| ==> s[i] == s[1..][i - 1];
        }
      }
    }
  }

  /** Sanitising twice changes nothing more. */
  lemma SanitizeIdempotent(s: string)
    ensures Sanitize(Sanitize(s)) == Sanitize(s)
  {
    SanitizeNoSpace(s);
    SanitizeIdentity(Sanitize(s));
  }

  /** A non-empty run of whitespace on its own becomes a single '_'. */
  lemma {:induction false} SanitizeRun(w: string)
    requires w != [] && AllSpace(w)
    ensures Sanitize(w) == "_"
  {
    DropRunSplits(w);
    assert DropRun(w) == [];
  }

  lemma {:induction false} DropRunAppend(a: string, b: string)
    requires a != [] && !AllSpace(a)
    ensures DropRun(a + b) == DropRun(a) + b
    decreases |a|
  {
    if IsSpace(a[0]) {
      assert (a + b)[1..] == a[1..] + b;
      assert !AllSpace(a[1..]) by {
        var i :| 0 <= i < |a| && !IsSpace(a[i]);
        assert a[1..][i - 1] == a[i];
      }
      DropRunAppend(a[1..], b);
    }
  }

  /** Sanitising splits over a concatenation, provided the cut does not
      fall inside a whitespace run. */
  lemma {:induction false} SanitizeAppend(a: string, b: string)
    requires a == [] || b == [] || !IsSpace(a[|a| - 1]) || !IsSpace(b[0])
    ensures Sanitize(a + b) == Sanitize(a) + Sanitize(b)
    decreases |a|, 1
  {
    if a == [] {
      assert a + b == b;
    } else if IsSpace(a[0]) {
      SanitizeAppendAtRun(a, b);
    } else {
      var t := a[1..];
      if t != [] {
        assert t[|t| - 1] == a[|a| - 1];
      }
      SanitizeAppend(t, b);
      SanitizeAfterChar(a, b);
    }
  }

  /** The step of `SanitizeAppend` after the recursive call: a character
      other than whitespace opening `a` is kept on both sides. */
  lemma SanitizeAfterChar(a: string, b: string)
    requires a != [] && !IsSpace(a[0])
    requires Sanitize(a[1..] + b) == Sanitize(a[1..]) + Sanitize(b)
    ensures Sanitize(a + b) == Sanitize(a) + Sanitize(b)
  {
    var t := a[1..];
    assert (a + b)[0] == a[0] && (a + b)[1..] == t + b;
    SanitizeAtChar(a + b);
    SanitizeAtChar(a);
    Regroup([a[0]], Sanitize(a + b), Sanitize(a), Sanitize(t), Sanitize(b), Sanitize(t + b));
  }

  /** The case of `SanitizeAppend` where `a` opens with whitespace. */
  lemma {:induction false} SanitizeAppendAtRun(a: string, b: string)
    requires a != [] && IsSpace(a[0])
    requires b == [] || !IsSpace(a[|a| - 1]) || !IsSpace(b[0])
    ensures Sanitize(a + b) == Sanitize(a) + Sanitize(b)
    decreases |a|, 0
  {
    if AllSpace(a) {
      SanitizeAppendRun(a, b);
    } else {
      var d := DropRun(a);
      DropRunKeepsLast(a);
      SanitizeAppend(d, b);
      SanitizeAfterRun(a, b, d);
    }
  }

  /** The step of `SanitizeAppendAtRun` after the recursive call: a run
      opening `a` becomes one '_' on both sides. */
  lemma SanitizeAfterRun(a: string, b: string, d: string)
    requires a != [] && IsSpace(a[0]) && !AllSpace(a)
    requires d == DropRun(a)
    requires Sanitize(d + b) == Sanitize(d) + Sanitize(b)
    ensures Sanitize(a + b) == Sanitize(a) + Sanitize(b)
  {
    assert (a + b)[0] == a[0];
    DropRunAppend(a, b);
    SanitizeAtSpace(a + b);
    SanitizeAtSpace(a);
    Regroup("_", Sanitize(a + b), Sanitize(a), Sanitize(d), Sanitize(b), Sanitize(d + b));
  }

  /** The string algebra of the steps above, kept apart so that the
      solver need not unfold `Sanitize` to see it. */
  lemma Regroup(p: string, ab: string, a: string, d: string, b: string, db: string)
    requires ab == p + db && a == p + d && db == d + b
    ensures ab == a + b
  {
    assert p + (d + b) == (p + d) + b;
  }

  lemma SanitizeAtChar(s: string)
    requires s != [] && !IsSpace(s[0])
    ensures Sanitize(s) == [s[0]] + Sanitize(s[1..])
  {
  }

  lemma SanitizeAtSpace(s: string)
    requires s != [] && IsSpace(s[0])
    ensures Sanitize(s) == "_" + Sanitize(DropRun(s))
  {
  }

  /** Unless `a` is all whitespace, dropping its leading run keeps its last
      character. */
  lemma DropRunKeepsLast(a: string)
    requires a != [] && !AllSpace(a)
    ensures DropRun(a) != [] && DropRun(a)[|DropRun(a)| - 1] == a[|a| - 1]
  {
    DropRunSplits(a);
  }

  /** A whitespace run followed by text that does not open with whitespace. */
  lemma SanitizeAppendRun(w: string, b: string)
    requires w != [] && AllSpace(w)
    requires b == [] || !IsSpace(b[0])
    ensures Sanitize(w + b) == Sanitize(w) + Sanitize(b)
  {
    SanitizeRun(w);
    DropRunSkipsRun(w, b);
    assert (w + b)[0] == w[0];
  }

  lemma {:induction false} DropRunSkipsRun(w: string, b: string)
    requires AllSpace(w)
    requires b == [] || !IsSpace(b[0])
    ensures DropRun(w + b) == b
    decreases |w|
  {
    if w == [] {
      assert w + b == b;
    } else {
      assert (w + b)[1..] == w[1..] + b;
      DropRunSkipsRun(w[1..], b);
    }
  }

  /** The upload's stored name. `now` is the clock in milliseconds and
      `rand` the rounded random draw; both are written as decimal text. */
  function FileName(original: string, now: nat, rand: nat): string {
    Decimal.Show(now) + "-" + Decimal.Show(rand) + "-" + Sanitize(original)
  }

  lemma {:induction false} SplitAtDash(x: string, y: string, x': string, y': string)
    requires Decimal.AllDigits(x) && Decimal.AllDigits(x')
    requires x + "-" + y == x' + "-" + y'
    ensures x == x' && y == y'
  {
    var s := x + "-" + y;
    assert s[|x|] == '-';
    assert (x' + "-" + y')[|x'|] == '-';
    assert |x| == |x'|;
    assert x == s[..|x|] == x';
    assert y == s[|x| + 1..] == y';
  }

  /** A name `{x}-{y}-{z}` with digit-only `x` and `y` splits in one way
      only. */
  lemma SplitName(x: string, y: string, z: string, x': string, y': string, z': string)
    requires Decimal.AllDigits(x) && Decimal.AllDigits(y)
    requires Decimal.AllDigits(x') && Decimal.AllDigits(y')
    requires x + "-" + y + "-" + z == x' + "-" + y' + "-" + z'
    ensures x == x' && y == y' && z == z'
  {
    assert x + "-" + y + "-" + z == x + "-" + (y + "-" + z);
    assert x' + "-" + y' + "-" + z' == x' + "-" + (y' + "-" + z');
    SplitAtDash(x, y + "-" + z, x', y' + "-" + z');
    SplitAtDash(y, z, y', z');
  }

  /** Different clock readings or random draws give different names, and
      the part after the second '-' is the sanitised original name. */
  lemma FileNameInjective(a: string, now: nat, rand: nat, b: string, now': nat, rand': nat)
    requires FileName(a, now, rand) == FileName(b, now', rand')
    ensures now == now' && rand == rand' && Sanitize(a) == Sanitize(b)
  {
    SplitName(Decimal.Show(now), Decimal.Show(rand), Sanitize(a),
              Decimal.Show(now'), Decimal.Show(rand'), Sanitize(b));
    Decimal.ShowInjective(now, now');
    Decimal.ShowInjective(rand, rand');
  }

  /** Where the server serves the uploaded files. */
  const UploadsPrefix := "/uploads/"

  datatype UploadReply = Saved(filename: string, url: string) | NoFile(error: string)

  function UploadStatus(r: UploadReply): int {
    if r.Saved? then 200 else 400
  }

  /** POST /upload. `file` is the original name of the uploaded file, or
      `None` when the request carried none. */
  function HandleUpload(file: Option<string>, now: nat, rand: nat): (r: UploadReply)
    ensures file.None? <==> r == NoFile("No file uploaded")
    ensures file.None? <==> UploadStatus(r) == 400
    ensures file.Some? ==>
              && r.Saved?
              && r.filename == FileName(file.value, now, rand)
              && r.url == UploadsPrefix + r.filename
              && NoSpace(r.filename)
  {
    match file
    case None => NoFile("No file uploaded")
    case Some(name) =>
      var filename := FileName(name, now, rand);
      assert NoSpace(filename) by {
        SanitizeNoSpace(name);
        var n, d := Decimal.Show(now), Decimal.Show(rand);
        assert Decimal.AllDigits(n) && Decimal.AllDigits(d);
        assert filename == n + "-" + d + "-" + Sanitize(name);
        forall i | 0 <= i < |filename| ensures !IsSpace(filename[i]) {
          if i < |n| {
            assert filename[i] == n[i];
          } else if i == |n| {
          } else if i < |n| + 1 + |d| {
            assert filename[i] == d[i - |n| - 1];
          } else if i == |n| + 1 + |d| {
          } else {
            assert filename[i] == Sanitize(name)[i - |n| - |d| - 2];
          }
        }
      }
      Saved(filename, UploadsPrefix + filename)
  }
}
