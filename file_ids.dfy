/** Data file names (internal/bitcask/bitcask.go): a data file is called
    data-<id>.db, extractFileId reads the id back out of a path, and Open
    orders the files it finds by that id. Paths are Unix paths. */
module FileIds {
  import opened Common

  const DataFilePrefix: string := "data-"
  const DataFileSuffix: string := ".db"

  /** The path with its trailing slashes removed. */
  function TrimTrailingSlashes(path: string): (p: string)
    ensures p <= path
    ensures p == [] || p[|p| - 1] != '/'
  {
    if path != [] && path[|path| - 1] == '/' then TrimTrailingSlashes(path[..|path| - 1])
    else path
  }

  /** The characters after the last slash. */
  function LastElement(path: string): (e: string)
    ensures '/' !in e
    ensures |e| <= |path|
    ensures e == path[|path| - |e|..]
    ensures |e| < |path| ==> path[|path| - |e| - 1] == '/'
  {
    if path == [] || path[|path| - 1] == '/' then []
    else LastElement(path[..|path| - 1]) + [path[|path| - 1]]
  }

  /** filepath.Base: the last element of the path, "." for the empty path
      and "/" for a path of slashes only. */
  function Base(path: string): (b: string)
    ensures b != []
    ensures b != "/" ==> '/' !in b
  {
    if path == [] then "."
    else
      var trimmed := TrimTrailingSlashes(path);
      if trimmed == [] then "/"
      else LastElement(trimmed)
  }

  /** strings.TrimPrefix */
  function TrimPrefix(s: string, prefix: string): (r: string)
    ensures prefix <= s ==> s == prefix + r
    ensures !(prefix <= s) ==> r == s
  {
    if prefix <= s then s[|prefix|..] else s
  }

  /** strings.TrimSuffix */
  function TrimSuffix(s: string, suffix: string): (r: string)
    ensures |suffix| <= |s| && s[|s| - |suffix|..] == suffix ==> s == r + suffix
    ensures !(|suffix| <= |s| && s[|s| - |suffix|..] == suffix) ==> r == s
  {
    if |suffix| <= |s| && s[|s| - |suffix|..] == suffix then s[..|s| - |suffix|] else s
  }

  const MaxUint64: nat := 0xFFFF_FFFF_FFFF_FFFF

  /** The largest value that can take one more decimal digit without
      overflowing, plus one: ParseUint's `cutoff` for base 10. */
  const Cutoff: nat := MaxUint64 / 10 + 1

  predicate IsDigit(c: char) {
    '0' <= c <= '9'
  }

  function DigitValue(c: char): nat
    requires IsDigit(c)
  {
    c as int - '0' as int
  }

  /** How strconv.ParseUint ends: a value, a syntax error (it returns 0) or
      a range error (it returns the largest uint64). */
  datatype UintParse = UintOk(n: nat) | UintSyntax | UintRange

  /** ParseUint's loop, base 10, on the digits left after `acc` has been
      read: a non-digit is a syntax error, and a value that would pass
      2^64 - 1 is a range error, whichever comes first. */
  function ParseUintFrom(s: string, acc: nat): (r: UintParse)
    requires acc <= MaxUint64
    ensures r.UintOk? ==> r.n <= MaxUint64
    ensures (forall i :: 0 <= i < |s| ==> !IsDigit(s[i])) && s != [] ==> r == UintSyntax
  {
    if s == [] then UintOk(acc)
    else if !IsDigit(s[0]) then UintSyntax
    else if acc >= Cutoff then UintRange
    else
      var n := acc * 10 + DigitValue(s[0]);
      if n > MaxUint64 then UintRange else ParseUintFrom(s[1..], n)
  }

  /** strconv.ParseUint(s, 10, 64); the empty string is a syntax error. */
  function ParseUint(s: string): UintParse {
    if s == [] then UintSyntax else ParseUintFrom(s, 0)
  }

  /** strconv.ParseInt(s, 10, 64) with its error dropped, as
      extractFileId does: an optional sign, then ParseUint; a syntax error
      gives 0 and a value out of range gives the nearest int64. */
  function ParseInt(s: string): (id: int)
    ensures MinInt64 <= id <= MaxInt64
  {
    if s == [] then 0
    else
      var neg := s[0] == '-';
      var digits := if s[0] == '+' || s[0] == '-' then s[1..] else s;
      match ParseUint(digits)
      case UintSyntax => 0
      case UintRange => if neg then MinInt64 else MaxInt64
      case UintOk(un) =>
        if !neg && un > MaxInt64 then MaxInt64
        else if neg && un > -MinInt64 then MinInt64
        else if neg then -(un as int) else un
  }

  /** extractFileId */
  function ExtractFileId(path: string): (id: int)
    ensures MinInt64 <= id <= MaxInt64
  {
    ParseInt(TrimSuffix(TrimPrefix(Base(path), DataFilePrefix), DataFileSuffix))
  }

  /** The decimal digits of a natural number (strconv.FormatInt, base 10). */
  function FormatNat(n: nat): (s: string)
    ensures s != [] && forall i :: 0 <= i < |s| ==> IsDigit(s[i])
  {
    if n < 10 then [('0' as int + n) as char]
    else FormatNat(n / 10) + [('0' as int + n % 10) as char]
  }

  /** strconv.FormatInt(id, 10) */
  function FormatInt(id: int): (s: string)
    ensures s != [] && '/' !in s
  {
    if id < 0 then "-" + FormatNat(-id) else FormatNat(id)
  }

  /** The name RotateFile gives the file with id `id`. */
  function FileName(id: int): (name: string)
    ensures name != [] && '/' !in name
  {
    DataFilePrefix + FormatInt(id) + DataFileSuffix
  }

  /** filepath.Join of a directory and a file name. (Join also cleans the
      directory part; that does not change the last element.) */
  function Join(dir: string, name: string): string {
    if dir == [] then name else dir + "/" + name
  }

  function Pow10(k: nat): (p: nat)
    ensures p >= 1
  {
    if k == 0 then 1 else 10 * Pow10(k - 1)
  }

  /** Reading the digits of `n` after `acc` shifts `acc` left by as many
      decimal places and adds `n`, as long as that fits in 64 bits. */
  lemma {:induction false} ParseFormatNat(n: nat, acc: nat, rest: string)
    requires acc * Pow10(|FormatNat(n)|) + n <= MaxUint64
    ensures ParseUintFrom(FormatNat(n) + rest, acc) == ParseUintFrom(rest, acc * Pow10(|FormatNat(n)|) + n)
  {
    var s := FormatNat(n);
    var k := |s|;
    if n < 10 {
      assert (s + rest)[1..] == rest;
      assert acc * 10 + n <= MaxUint64;
    } else {
      var d := ('0' as int + n % 10) as char;
      var high := FormatNat(n / 10);
      assert s + rest == high + ([d] + rest);
      var j := |high|;
      assert Pow10(k) == 10 * Pow10(j);
      assert acc * Pow10(k) == 10 * (acc * Pow10(j));
      assert n == 10 * (n / 10) + n % 10;
      var shifted := acc * Pow10(j) + n / 10;
      assert 10 * shifted + n % 10 == acc * Pow10(k) + n;
      ParseFormatNat(n / 10, acc, [d] + rest);
      assert ([d] + rest)[1..] == rest;
      assert shifted < Cutoff;
    }
  }

  /** ParseInt reads back what FormatInt writes. */
  lemma ParseFormatInt(id: int)
    requires MinInt64 <= id <= MaxInt64
    ensures ParseInt(FormatInt(id)) == id
  {
    var n := if id < 0 then -id else id;
    var s := FormatNat(n);
    assert s + [] == s;
    ParseFormatNat(n, 0, []);
    assert ParseUint(s) == UintOk(n);
    if id < 0 {
      assert FormatInt(id)[1..] == s;
    }
  }

  lemma {:induction false} LastElementOfJoin(dir: string, name: string)
    requires '/' !in name
    ensures LastElement(dir + "/" + name) == name
    decreases |name|
  {
    if name == [] {
    } else {
      var init := name[..|name| - 1];
      assert (dir + "/" + name)[..|dir + "/" + name| - 1] == dir + "/" + init;
      LastElementOfJoin(dir, init);
      assert init + [name[|name| - 1]] == name;
    }
  }

  lemma {:induction false} LastElementOfName(name: string)
    requires '/' !in name
    ensures LastElement(name) == name
    decreases |name|
  {
    if name != [] {
      var init := name[..|name| - 1];
      LastElementOfName(init);
      assert init + [name[|name| - 1]] == name;
    }
  }

  /** The base of a file joined onto a directory is the file name. */
  lemma BaseOfJoin(dir: string, name: string)
    requires name != [] && '/' !in name
    ensures Base(Join(dir, name)) == name
  {
    if dir == [] {
      LastElementOfName(name);
    } else {
      LastElementOfJoin(dir, name);
    }
  }

  /** extractFileId undoes the naming of data files: the file RotateFile
      creates for id `id` is read back as `id`. */
  lemma ExtractFileIdOfFileName(dir: string, id: int)
    requires MinInt64 <= id <= MaxInt64
    ensures ExtractFileId(Join(dir, FileName(id))) == id
  {
    BaseOfJoin(dir, FileName(id));
    var digits := FormatInt(id);
    assert FileName(id) == DataFilePrefix + (digits + DataFileSuffix);
    assert TrimPrefix(FileName(id), DataFilePrefix) == digits + DataFileSuffix;
    assert TrimSuffix(digits + DataFileSuffix, DataFileSuffix) == digits;
    ParseFormatInt(id);
  }

  /** A name with no digit between "data-" and ".db" is file 0. */
  lemma ExtractFileIdNoDigits(path: string)
    requires var s := TrimSuffix(TrimPrefix(Base(path), DataFilePrefix), DataFileSuffix);
      forall i :: 0 <= i < |s| ==> !IsDigit(s[i])
    ensures ExtractFileId(path) == 0
  {
    var s := TrimSuffix(TrimPrefix(Base(path), DataFilePrefix), DataFileSuffix);
    if s != [] && (s[0] == '+' || s[0] == '-') {
      assert forall i :: 0 <= i < |s[1..]| ==> s[1..][i] == s[i + 1];
    }
  }

  lemma {:induction false} Pow10Monotone(j: nat, k: nat)
    requires j <= k
    ensures Pow10(j) <= Pow10(k)
    decreases k
  {
    if j < k {
      Pow10Monotone(j, k - 1);
    }
  }

  lemma Pow10Large()
    ensures Pow10(18) == 1_000_000_000_000_000_000
    ensures Pow10(19) == 10_000_000_000_000_000_000
  {
    assert Pow10(6) == 1_000_000;
    assert Pow10(12) == 1_000_000_000_000;
  }

  /** ParseUint's loop on at most 19 characters that are not all digits
      is a syntax error: the value read before the first non-digit stays
      below 10^19, so the range check never fires first. */
  lemma {:induction false} ParseUintFromSyntax(s: string, acc: nat)
    requires |s| <= 19 && acc < Pow10(19 - |s|) && acc <= MaxUint64
    requires exists i :: 0 <= i < |s| && !IsDigit(s[i])
    ensures ParseUintFrom(s, acc) == UintSyntax
    decreases |s|
  {
    if IsDigit(s[0]) {
      Pow10Monotone(19 - |s|, 18);
      Pow10Large();
      assert acc < Cutoff;
      var n := acc * 10 + DigitValue(s[0]);
      assert Pow10(19 - |s| + 1) == 10 * Pow10(19 - |s|);
      Pow10Monotone(19 - |s| + 1, 19);
      assert n <= MaxUint64;
      var i :| 0 <= i < |s| && !IsDigit(s[i]);
      assert s[1..][i - 1] == s[i];
      ParseUintFromSyntax(s[1..], n);
    }
  }

  /** A name whose part between "data-" and ".db", after an optional sign,
      is at most 19 characters long and holds a non-digit is file 0: strconv
      reports a syntax error, as for data-1a.db or data-2.old.db. Longer
      digit runs can hit the range check first. */
  lemma ExtractFileIdSyntax(path: string)
    requires var s := TrimSuffix(TrimPrefix(Base(path), DataFilePrefix), DataFileSuffix);
      var digits := if s != [] && (s[0] == '+' || s[0] == '-') then s[1..] else s;
      |digits| <= 19 && exists i :: 0 <= i < |digits| && !IsDigit(digits[i])
    ensures ExtractFileId(path) == 0
  {
    var s := TrimSuffix(TrimPrefix(Base(path), DataFilePrefix), DataFileSuffix);
    var digits := if s != [] && (s[0] == '+' || s[0] == '-') then s[1..] else s;
    ParseUintFromSyntax(digits, 0);
    assert ParseUint(digits) == UintSyntax;
  }

  /** A data file as Open lists it: its id and its path. */
  datatype DataFile = DataFile(id: int, path: string)

  /** The ids of a list of files. */
  function Ids(fs: seq<DataFile>): (ids: set<int>)
    ensures forall f :: f in fs ==> f.id in ids
  {
    set f | f in fs :: f.id
  }

  /** Each file's id is at most the next one's. */
  predicate Ascending(fs: seq<DataFile>) {
    forall i :: 0 < i < |fs| ==> fs[i - 1].id <= fs[i].id
  }

  /** Each file's id is below the next one's. */
  predicate StrictlyAscending(fs: seq<DataFile>) {
    forall i :: 0 < i < |fs| ==> fs[i - 1].id < fs[i].id
  }

  /** No two files share an id. */
  predicate DistinctIds(fs: seq<DataFile>) {
    forall i, j :: 0 <= i < j < |fs| ==> fs[i].id != fs[j].id
  }

  /** Insert `f` after every file whose id is not larger. */
  function InsertById(fs: seq<DataFile>, f: DataFile): (r: seq<DataFile>)
    ensures |r| == |fs| + 1
    ensures r[0] == f || (fs != [] && r[0] == fs[0])
  {
    if fs == [] then [f]
    else if f.id < fs[0].id then [f] + fs
    else [fs[0]] + InsertById(fs[1..], f)
  }

  /** Insertion into an ascending list keeps it ascending and adds
      exactly `f`. */
  lemma {:induction false} InsertByIdSorted(fs: seq<DataFile>, f: DataFile)
    requires Ascending(fs)
    ensures multiset(InsertById(fs, f)) == multiset(fs) + multiset{f}
    ensures Ascending(InsertById(fs, f))
  {
    if fs != [] && f.id >= fs[0].id {
      InsertByIdSorted(fs[1..], f);
      assert fs == [fs[0]] + fs[1..];
    }
  }

  /** Inserting a file with a new id into a strictly ascending list keeps
      it strictly ascending. */
  lemma {:induction false} InsertByIdStrict(fs: seq<DataFile>, f: DataFile)
    requires StrictlyAscending(fs)
    requires forall g :: g in fs ==> g.id != f.id
    ensures StrictlyAscending(InsertById(fs, f))
  {
    if fs != [] && f.id >= fs[0].id {
      var tail := fs[1..];
      assert fs[0] in fs;
      assert forall g :: g in tail ==> g in fs;
      InsertByIdStrict(tail, f);
      var r := InsertById(tail, f);
      assert r[0].id > fs[0].id by {
        if tail != [] {
          assert fs[1] == tail[0];
        }
      }
      assert InsertById(fs, f) == [fs[0]] + r;
    }
  }

  /** In a strictly ascending list every id is below the last one. */
  lemma {:induction false} StrictlyAscendingLast(fs: seq<DataFile>)
    requires StrictlyAscending(fs) && fs != []
    ensures forall i :: 0 <= i < |fs| - 1 ==> fs[i].id < fs[|fs| - 1].id
  {
    if |fs| > 1 {
      StrictlyAscendingLast(fs[..|fs| - 1]);
    }
  }

  /** In a strictly ascending list every id is below every later one. */
  lemma StrictlyAscendingBelow(fs: seq<DataFile>, i: nat)
    requires StrictlyAscending(fs) && i < |fs|
    ensures forall j :: 0 <= j < i ==> fs[j].id < fs[i].id
  {
    StrictlyAscendingLast(fs[..i + 1]);
  }

  /** In ascending files no id is above a later one. */
  lemma {:induction false} AscendingBelow(fs: seq<DataFile>, i: nat, k: nat)
    requires Ascending(fs) && i <= k < |fs|
    ensures fs[i].id <= fs[k].id
    decreases k - i
  {
    if i < k {
      AscendingBelow(fs, i, k - 1);
    }
  }

  /** One insertion step of SortById keeps the ids strictly ascending
      when the listing's ids are distinct. */
  lemma SortByIdStep(fs: seq<DataFile>, i: nat, sorted: seq<DataFile>)
    requires i < |fs| && multiset(sorted) == multiset(fs[..i])
    requires DistinctIds(fs) ==> StrictlyAscending(sorted)
    ensures DistinctIds(fs) ==> StrictlyAscending(InsertById(sorted, fs[i]))
  {
    if DistinctIds(fs) {
      forall g | g in sorted
        ensures g.id != fs[i].id
      {
        assert g in multiset(fs[..i]);
        var k :| 0 <= k < i && fs[..i][k] == g;
        assert fs[k] == g;
      }
      InsertByIdStrict(sorted, fs[i]);
    }
  }

  /** The sort.Slice call of Open: the files ordered by id. Insertion sort
      is stable where sort.Slice is not; the two agree when the ids are
      distinct. */
  method SortById(fs: seq<DataFile>) returns (sorted: seq<DataFile>)
    ensures multiset(sorted) == multiset(fs)
    ensures Ascending(sorted)
    ensures DistinctIds(fs) ==> StrictlyAscending(sorted)
  {
    sorted := [];
    for i := 0 to |fs|
      invariant multiset(sorted) == multiset(fs[..i])
      invariant Ascending(sorted)
      invariant DistinctIds(fs) ==> StrictlyAscending(sorted)
    {
      InsertByIdSorted(sorted, fs[i]);
      SortByIdStep(fs, i, sorted);
      assert fs[..i + 1] == fs[..i] + [fs[i]];
      sorted := InsertById(sorted, fs[i]);
    }
    assert fs[..|fs|] == fs;
  }
}
