/**
 Redacting file bytes out of an asset spec before it is diffed, and what the
 redaction does to the verdict of the diff.
 */
module Redaction {
  import opened Json
  import opened JsonTree
  import opened Diff
  import opened DiffLaws

  /**
   The summaries that replace content: inline of a string as it stands, file of
   the content field of a file entry (its base64 decoding, or the text itself
   when that fails).
   */
  datatype Digests = Digests(inline: string -> string, file: string -> string)

  function StringAt(v: Json, k: string): string {
    if Child(v, k).Str? then Child(v, k).s else ""
  }

  predicate IsFile(v: Json) {
    v.Obj? && StringAt(v, "_source") == "file"
  }

  function RedactEntry(d: Digests, v: Json): Json {
    if v.Str? then Str(d.inline(v.s))
    else if IsFile(v) then
      Obj(map["_source" := Str("file"),
              "filename" := Child(v, "filename"),
              "content" := Str(d.file(StringAt(v, "content")))])
    else v
  }

  function RedactFiles(d: Digests, files: Json): Json {
    if files.Obj? then Obj(map k | k in files.fields :: RedactEntry(d, files.fields[k])) else files
  }

  /** The redacted spec: every entry of the files object, and nothing else. */
  function Redacted(d: Digests, spec: Json): Json {
    if spec.Obj? && Child(spec, "files").Obj?
    then Obj(spec.fields["files" := RedactFiles(d, Child(spec, "files"))])
    else spec
  }

  method RedactAssetContent(d: Digests, spec: Json) returns (out: Json)
    ensures out == Redacted(d, spec)
  {
    if !spec.Obj? || !Get(spec.fields, "files").Obj? {
      return spec;
    }
    var raw := Get(spec.fields, "files").fields;
    var files, left := raw, raw.Keys;
    while left != {}
      invariant left <= raw.Keys == files.Keys
      invariant forall k | k in raw ::
                  files[k] == if k in left then raw[k] else RedactEntry(d, raw[k])
      decreases |left|
    {
      var key :| key in left;
      files := files[key := RedactEntry(d, files[key])];
      left := left - {key};
    }
    assert files == map k | k in raw :: RedactEntry(d, raw[k]);
    return Obj(spec.fields["files" := Obj(files)]);
  }

  lemma RedactedChild(d: Digests, spec: Json, k: string)
    ensures Child(Redacted(d, spec), k)
         == if k == "files" then RedactFiles(d, Child(spec, k)) else Child(spec, k)
  {
  }

  lemma RedactedEntry(d: Digests, files: Json, k: string)
    ensures Child(RedactFiles(d, files), k) == RedactEntry(d, Child(files, k))
  {
  }

  // ----- equal specs stay equal

  lemma EntryKeepsNorm(d: Digests, a: Json, b: Json)
    requires Norm(a) == Norm(b)
    ensures Norm(RedactEntry(d, a)) == Norm(RedactEntry(d, b))
  {
    hide Norm, Height;
    NormKind(a, b);
    NormHas(a, b, "_source");
    NormHas(a, b, "content");
    NormHas(a, b, "filename");
    if IsFile(a) {
      var ra, rb := RedactEntry(d, a), RedactEntry(d, b);
      forall k ensures Norm(Child(ra, k)) == Norm(Child(rb, k)) {
        FileEntryChild(d, a, k);
        FileEntryChild(d, b, k);
      }
      NormFromChildren(ra, rb);
    }
  }

  lemma FileEntryChild(d: Digests, v: Json, k: string)
    requires v.Obj? || v.Null?
    requires StringAt(v, "_source") == "file"
    ensures Child(RedactEntry(d, v), k)
         == if k == "_source" then Str("file")
            else if k == "filename" then Child(v, "filename")
            else if k == "content" then Str(d.file(StringAt(v, "content")))
            else Null
  {
  }

  lemma NormHas(a: Json, b: Json, k: string)
    requires Norm(a) == Norm(b)
    ensures Norm(Child(a, k)) == Norm(Child(b, k))
    ensures StringAt(a, k) == StringAt(b, k)
  {
    NormChild(a, k);
    NormChild(b, k);
  }

  lemma NormKind(a: Json, b: Json)
    requires Norm(a) == Norm(b)
    ensures a == b || ((a.Obj? || a.Null?) && (b.Obj? || b.Null?))
  {
    NormIsFilled(if a.Obj? then a else Null);
    NormIsFilled(if b.Obj? then b else Null);
  }

  lemma FilesKeepNorm(d: Digests, a: Json, b: Json)
    requires Norm(a) == Norm(b)
    ensures Norm(RedactFiles(d, a)) == Norm(RedactFiles(d, b))
  {
    NormKind(a, b);
    if a != b {
      forall k ensures Norm(Child(RedactFiles(d, a), k)) == Norm(Child(RedactFiles(d, b), k)) {
        RedactedEntry(d, a, k);
        RedactedEntry(d, b, k);
        NormHas(a, b, k);
        EntryKeepsNorm(d, Child(a, k), Child(b, k));
      }
      NormFromChildren(RedactFiles(d, a), RedactFiles(d, b));
    }
  }

  lemma RedactionKeepsNorm(d: Digests, a: Json, b: Json)
    requires Norm(a) == Norm(b)
    ensures Norm(Redacted(d, a)) == Norm(Redacted(d, b))
  {
    NormKind(a, b);
    if a != b {
      NormHas(a, b, "files");
      FilesKeepNorm(d, Child(a, "files"), Child(b, "files"));
      forall k ensures Norm(Child(Redacted(d, a), k)) == Norm(Child(Redacted(d, b), k)) {
        RedactedChild(d, a, k);
        RedactedChild(d, b, k);
        NormHas(a, b, k);
      }
      NormFromChildren(Redacted(d, a), Redacted(d, b));
    }
  }

  /** The diff of two specs has a line. */
  ghost predicate Changed(l: Json, r: Json) {
    exists path :: Reported(l, r, path)
  }

  lemma UnchangedIfNormEqual(l: Json, r: Json)
    requires Norm(l) == Norm(r)
    ensures !Changed(l, r)
  {
    forall path ensures !Reported(l, r, path) {
      NormIsTheLeaves(l, r);
      assert Leaf(l, path) == Leaf(r, path);
    }
  }

  lemma NormEqualIfUnchanged(l: Json, r: Json)
    requires Compatible(l, r) && !Changed(l, r)
    ensures Norm(l) == Norm(r)
  {
    forall path ensures Leaf(l, path) == Leaf(r, path) {
      CompatibleHasNoClash(l, r, path);
      MissedOnlyAtClash(l, r, path);
    }
    NormIsTheLeaves(l, r);
  }

  /** On compatible specs a redacted line never appears without a plain one. */
  lemma RedactionAddsNothing(d: Digests, l: Json, r: Json)
    requires Compatible(l, r) && Changed(Redacted(d, l), Redacted(d, r))
    ensures Changed(l, r)
  {
    if !Changed(l, r) {
      NormEqualIfUnchanged(l, r);
      RedactionKeepsNorm(d, l, r);
      UnchangedIfNormEqual(Redacted(d, l), Redacted(d, r));
    }
  }

  // ----- what redaction shows of two entries

  /** A pair is changed at its root or under some key. */
  lemma ChangedByChildren(a: Json, b: Json)
    ensures Changed(a, b) <==>
      (!a.Obj? && !b.Obj? && a != b) || exists k :: Changed(Child(a, k), Child(b, k))
  {
    if path :| Reported(a, b, path) {
      if path != [] { assert Reported(Child(a, path[0]), Child(b, path[0]), path[1..]); }
    }
    if k :| Changed(Child(a, k), Child(b, k)) {
      var path :| Reported(Child(a, k), Child(b, k), path);
      assert ([k] + path)[1..] == path;
      assert Reported(a, b, [k] + path);
    }
    assert !a.Obj? && !b.Obj? && a != b ==> Reported(a, b, []);
  }

  lemma ChangedFromNull(c: Json)
    ensures Changed(Null, c) <==> Norm(c) != Null
    ensures Changed(c, Null) <==> Norm(c) != Null
  {
    hide Norm, Height;
    NormOfNull();
    NormIsTheLeaves(c, Null);
    forall path ensures Reported(Null, c, path) <==> Leaf(c, path) != Leaf(Null, path)
                ensures Reported(c, Null, path) <==> Leaf(c, path) != Leaf(Null, path)
    {
      NothingUnderNull(path);
    }
  }

  /** A text differs from c as shown: from another value, or from an object that holds something. */
  predicate TextShows(x: string, c: Json) {
    if c.Obj? then Norm(c) != Null else c != Str(x)
  }

  lemma ChangedFromText(x: string, c: Json)
    ensures Changed(Str(x), c) <==> TextShows(x, c)
    ensures Changed(c, Str(x)) <==> TextShows(x, c)
  {
    hide Norm, Changed;
    ChangedByChildren(Str(x), c);
    ChangedByChildren(c, Str(x));
    ChangedByChildren(Null, c);
    ChangedByChildren(c, Null);
    ChangedFromNull(c);
    ChangedByChildren(Null, Null);
    ChangedFromNull(Null);
    NormOfNull();
  }

  /**
   A file entry against one that is none: the digest, which replaces content,
   shows against the other's content, or another field of the other, which a
   redacted file entry has not, holds something.
   */
  predicate Exposes(d: Digests, file: Json, other: Json) {
    || TextShows(d.file(StringAt(file, "content")), Child(other, "content"))
    || (other.Obj? && exists k | k in other.fields && k !in {"_source", "filename", "content"} ::
          Norm(other.fields[k]) != Null)
  }

  /** A file entry against one that is none differs as redacted. */
  ghost predicate FileShows(d: Digests, file: Json, other: Json) {
    || !other.Obj?
    || TextShows("file", Child(other, "_source"))
    || Changed(Child(file, "filename"), Child(other, "filename"))
    || Exposes(d, file, other)
  }

  /** Two entries differ as redacted. */
  ghost predicate EntryShows(d: Digests, a: Json, b: Json) {
    if IsFile(a) && IsFile(b) then
      || Changed(Child(a, "filename"), Child(b, "filename"))
      || d.file(StringAt(a, "content")) != d.file(StringAt(b, "content"))
    else if IsFile(a) then FileShows(d, a, b)
    else if IsFile(b) then FileShows(d, b, a)
    else if a.Str? && b.Str? then d.inline(a.s) != d.inline(b.s)
    else Changed(a, b)
  }

  lemma ChangedEitherWay(a: Json, b: Json)
    ensures Changed(a, b) <==> Changed(b, a)
  {
    if path :| Reported(a, b, path) { assert Reported(b, a, path); }
    if path :| Reported(b, a, path) { assert Reported(a, b, path); }
  }

  lemma BothFilesShowIff(d: Digests, a: Json, b: Json)
    requires IsFile(a) && IsFile(b)
    ensures Changed(RedactEntry(d, a), RedactEntry(d, b)) <==> EntryShows(d, a, b)
  {
    hide Changed, TextShows, RedactEntry;
    var ra, rb := RedactEntry(d, a), RedactEntry(d, b);
    var x, y := d.file(StringAt(a, "content")), d.file(StringAt(b, "content"));
    FileIsObject(d, a);
    FileIsObject(d, b);
    ChangedByChildren(ra, rb);
    ChangedFromText(x, Str(y));
    ChangedFromText("file", Str("file"));
    TextsShow(x, y);
    TextsShow("file", "file");
    NullUnchanged();
    forall k ensures Changed(Child(ra, k), Child(rb, k))
                <==> (k == "content" && x != y) || (k == "filename" && Changed(Child(a, k), Child(b, k)))
    {
      FileEntryChild(d, a, k);
      FileEntryChild(d, b, k);
    }
    assert Changed(Child(ra, "content"), Child(rb, "content")) <==> x != y;
    assert Changed(Child(ra, "filename"), Child(rb, "filename"))
      <==> Changed(Child(a, "filename"), Child(b, "filename"));
  }

  lemma TextsShow(x: string, y: string)
    ensures TextShows(x, Str(y)) <==> x != y
  {
  }

  lemma FileShowsIff(d: Digests, a: Json, b: Json)
    requires IsFile(a) && !IsFile(b)
    ensures Changed(RedactEntry(d, a), RedactEntry(d, b)) <==> FileShows(d, a, b)
  {
    hide Changed, TextShows, Norm, RedactEntry, Exposes;
    var ra, rb, x := RedactEntry(d, a), RedactEntry(d, b), d.file(StringAt(a, "content"));
    FileIsObject(d, a);
    OtherKept(d, b);
    ChangedByChildren(ra, rb);
    forall k
      ensures Changed(Child(ra, k), Child(rb, k))
         <==> ((k == "_source" && TextShows("file", Child(b, k)))
           || (k == "filename" && Changed(Child(a, k), Child(b, k)))
           || ExposesAt(x, b, k))
    {
      FileEntryChild(d, a, k);
      ChangedFromText("file", Child(b, k));
      ChangedFromText(x, Child(b, k));
      ChangedFromNull(Child(b, k));
    }
    if b.Obj? {
      ExposesSomewhere(d, a, b);
      assert Changed(Child(ra, "_source"), Child(rb, "_source")) <==> TextShows("file", Child(b, "_source"));
      assert Changed(Child(ra, "filename"), Child(rb, "filename"))
        <==> Changed(Child(a, "filename"), Child(b, "filename"));
      if k :| ExposesAt(x, b, k) {
        assert Changed(Child(ra, k), Child(rb, k));
      }
    } else {
      assert TextShows("file", Child(b, "_source")) by { AbsentShows("file"); }
      assert Changed(Child(ra, "_source"), Child(rb, "_source"));
    }
  }

  lemma AbsentShows(x: string)
    ensures TextShows(x, Null)
  {
  }

  /** An entry that is no file keeps its fields; only a text is replaced by a text. */
  lemma OtherKept(d: Digests, v: Json)
    requires !IsFile(v)
    ensures RedactEntry(d, v) == if v.Str? then Str(d.inline(v.s)) else v
    ensures forall k :: Child(RedactEntry(d, v), k) == Child(v, k)
  {
  }

  lemma FileIsObject(d: Digests, a: Json)
    requires IsFile(a)
    ensures RedactEntry(d, a).Obj?
  {
  }

  predicate ExposesAt(x: string, other: Json, k: string) {
    if k == "_source" || k == "filename" then false
    else if k == "content" then TextShows(x, Child(other, k))
    else Norm(Child(other, k)) != Null
  }

  lemma ExposesSomewhere(d: Digests, file: Json, other: Json)
    requires other.Obj?
    ensures Exposes(d, file, other) <==> exists k :: ExposesAt(d.file(StringAt(file, "content")), other, k)
  {
    hide TextShows, Norm;
    var x := d.file(StringAt(file, "content"));
    assert TextShows(x, Child(other, "content")) <==> ExposesAt(x, other, "content");
    NormOfNull();
    if k :| k in other.fields && k !in {"_source", "filename", "content"} && Norm(other.fields[k]) != Null {
      assert Child(other, k) == other.fields[k];
      assert ExposesAt(x, other, k);
    }
    if k :| ExposesAt(x, other, k) {
      assert k != "content" ==> k in other.fields && Child(other, k) == other.fields[k];
    }
  }

  lemma OthersShowIff(d: Digests, a: Json, b: Json)
    requires !IsFile(a) && !IsFile(b)
    ensures Changed(RedactEntry(d, a), RedactEntry(d, b)) <==> EntryShows(d, a, b)
  {
    hide Changed, RedactEntry;
    var ra, rb := RedactEntry(d, a), RedactEntry(d, b);
    OtherKept(d, a);
    OtherKept(d, b);
    if a.Str? {
      ChangedFromText(a.s, b);
      ChangedFromText(d.inline(a.s), rb);
    } else if b.Str? {
      ChangedFromText(b.s, a);
      ChangedFromText(d.inline(b.s), ra);
    }
  }

  lemma EntryShowsIff(d: Digests, a: Json, b: Json)
    ensures Changed(RedactEntry(d, a), RedactEntry(d, b)) <==> EntryShows(d, a, b)
  {
    hide Changed, TextShows, FileShows, RedactEntry;
    if IsFile(a) && IsFile(b) {
      BothFilesShowIff(d, a, b);
    } else if IsFile(a) {
      FileShowsIff(d, a, b);
    } else if IsFile(b) {
      ChangedEitherWay(RedactEntry(d, a), RedactEntry(d, b));
      FileShowsIff(d, b, a);
    } else {
      OthersShowIff(d, a, b);
    }
  }

  // ----- the verdict of every pair of specs, from its file entries

  function Entry(spec: Json, k: string): Json {
    Child(Child(spec, "files"), k)
  }

  /** A plain line outside the file entries, which redaction leaves alone. */
  ghost predicate ChangedElsewhere(l: Json, r: Json) {
    || (!l.Obj? && !r.Obj? && l != r)
    || (exists k | k != "files" :: Changed(Child(l, k), Child(r, k)))
    || (var fl, fr := Child(l, "files"), Child(r, "files"); !fl.Obj? && !fr.Obj? && fl != fr)
  }

  lemma ChangedByEntries(l: Json, r: Json)
    ensures Changed(l, r) <==> ChangedElsewhere(l, r) || exists k :: Changed(Entry(l, k), Entry(r, k))
  {
    hide Changed;
    ChangedByChildren(l, r);
    ChangedByChildren(Child(l, "files"), Child(r, "files"));
    var fl, fr := Child(l, "files"), Child(r, "files");
    if k :| Changed(Entry(l, k), Entry(r, k)) {
      assert Changed(Child(fl, k), Child(fr, k));
      assert Changed(fl, fr);
    }
    if Changed(fl, fr) && (fl.Obj? || fr.Obj? || fl == fr) {
      var k :| Changed(Child(fl, k), Child(fr, k));
      assert Changed(Entry(l, k), Entry(r, k));
    }
  }

  lemma ElsewhereKept(d: Digests, l: Json, r: Json)
    ensures ChangedElsewhere(Redacted(d, l), Redacted(d, r)) <==> ChangedElsewhere(l, r)
  {
    hide Changed, RedactFiles, Redacted;
    RedactedRoot(d, l);
    RedactedRoot(d, r);
    forall k | k != "files"
      ensures Changed(Child(Redacted(d, l), k), Child(Redacted(d, r), k)) <==> Changed(Child(l, k), Child(r, k))
    {
      RedactedChild(d, l, k);
      RedactedChild(d, r, k);
    }
    RedactedChild(d, l, "files");
    RedactedChild(d, r, "files");
  }

  /** The redacted diff of any two specs has a line exactly if there is one elsewhere or some key's entries show. */
  lemma RedactionShowsIff(d: Digests, l: Json, r: Json)
    ensures Changed(Redacted(d, l), Redacted(d, r))
       <==> ChangedElsewhere(l, r) || exists k :: EntryShows(d, Entry(l, k), Entry(r, k))
  {
    hide Changed, ChangedElsewhere, EntryShows, RedactEntry, RedactFiles, Redacted;
    var rl, rr := Redacted(d, l), Redacted(d, r);
    ChangedByEntries(rl, rr);
    ElsewhereKept(d, l, r);
    forall k ensures Changed(Entry(rl, k), Entry(rr, k)) <==> EntryShows(d, Entry(l, k), Entry(r, k)) {
      RedactedChild(d, l, "files");
      RedactedChild(d, r, "files");
      RedactedEntry(d, Child(l, "files"), k);
      RedactedEntry(d, Child(r, "files"), k);
      EntryShowsIff(d, Entry(l, k), Entry(r, k));
    }
    if k :| EntryShows(d, Entry(l, k), Entry(r, k)) {
      assert Changed(Entry(rl, k), Entry(rr, k));
    }
  }

  /** Two entries without a plain line get one by redaction. */
  predicate EntryAdds(d: Digests, a: Json, b: Json) {
    if IsFile(a) && IsFile(b) then d.file(StringAt(a, "content")) != d.file(StringAt(b, "content"))
    else (IsFile(a) && Exposes(d, a, b)) || (IsFile(b) && Exposes(d, b, a))
  }

  /** The counterpart of a file entry without a plain line is an object whose source is an empty object. */
  lemma SilentCounterpart(a: Json, b: Json)
    requires IsFile(a) && !IsFile(b) && !Changed(a, b)
    ensures b.Obj? && !TextShows("file", Child(b, "_source"))
    ensures !Changed(Child(a, "filename"), Child(b, "filename"))
  {
    hide Changed;
    ChangedByChildren(a, b);
    ChangedFromText("file", Child(b, "_source"));
  }

  lemma SilentShowsIff(d: Digests, a: Json, b: Json)
    requires !Changed(a, b)
    ensures EntryShows(d, a, b) <==> EntryAdds(d, a, b)
  {
    hide Changed, TextShows, Exposes;
    ChangedEitherWay(a, b);
    if IsFile(a) && IsFile(b) {
      ChangedByChildren(a, b);
    } else if IsFile(a) {
      SilentCounterpart(a, b);
    } else if IsFile(b) {
      SilentCounterpart(b, a);
    } else {
      ChangedByChildren(a, b);
    }
  }

  /**
   For every pair of specs without a plain line: redaction adds one if and only
   if it adds one for the entries of some key.
   */
  lemma RedactionAddsIff(d: Digests, l: Json, r: Json)
    requires !Changed(l, r)
    ensures Changed(Redacted(d, l), Redacted(d, r)) <==> exists k :: EntryAdds(d, Entry(l, k), Entry(r, k))
  {
    hide Changed, ChangedElsewhere, EntryShows, EntryAdds, Redacted;
    RedactionShowsIff(d, l, r);
    ChangedByEntries(l, r);
    forall k ensures EntryShows(d, Entry(l, k), Entry(r, k)) <==> EntryAdds(d, Entry(l, k), Entry(r, k)) {
      SilentShowsIff(d, Entry(l, k), Entry(r, k));
    }
  }

  /** Redaction never makes or unmakes an object, and touches nothing else. */
  lemma RedactedRoot(d: Digests, s: Json)
    ensures Redacted(d, s).Obj? == s.Obj? && (!s.Obj? ==> Redacted(d, s) == s)
    ensures RedactFiles(d, Child(s, "files")).Obj? == Child(s, "files").Obj?
    ensures !Child(s, "files").Obj? ==> RedactFiles(d, Child(s, "files")) == Child(s, "files")
  {
  }

  // ----- when it hides nothing

  ghost predicate Injective(f: string -> string) {
    forall x, y | f(x) == f(y) :: x == y
  }

  /** A file entry holds its three fields, the content as text. */
  predicate TidyEntry(v: Json) {
    IsFile(v) ==> v.fields.Keys <= {"_source", "filename", "content"} && Child(v, "content").Str?
  }

  predicate Tidy(spec: Json) {
    Child(spec, "files").Obj? ==>
      forall k | k in Child(spec, "files").fields :: TidyEntry(Child(spec, "files").fields[k])
  }

  lemma CompatibleChild(l: Json, r: Json, k: string)
    requires Compatible(l, r)
    ensures Compatible(Child(l, k), Child(r, k))
  {
  }

  /** Two contents that differ have one digest. */
  predicate Collide(d: Digests, a: Json, b: Json) {
    if IsFile(a) && IsFile(b) then
      StringAt(a, "content") != StringAt(b, "content")
      && d.file(StringAt(a, "content")) == d.file(StringAt(b, "content"))
    else a.Str? && b.Str? && a.s != b.s && d.inline(a.s) == d.inline(b.s)
  }

  /** Only the contents differ, and they collide. */
  ghost predicate EntryHides(d: Digests, a: Json, b: Json) {
    Collide(d, a, b) && (IsFile(a) && IsFile(b) ==> !Changed(Child(a, "filename"), Child(b, "filename")))
  }

  /** Redaction hides the difference of two tidy entries exactly if only their contents differ, and collide. */
  lemma EntryHidesIff(d: Digests, a: Json, b: Json)
    requires Compatible(a, b) && TidyEntry(a) && TidyEntry(b)
    ensures Changed(a, b) && !EntryShows(d, a, b) <==> EntryHides(d, a, b)
  {
    hide Changed, FileShows, TidyEntry;
    if IsFile(a) && IsFile(b) {
      TidyFilesChangedIff(a, b);
    } else if IsFile(a) {
      CompatibleFileShows(d, a, b);
    } else if IsFile(b) {
      CompatibleEitherWay(a, b);
      CompatibleFileShows(d, b, a);
    } else if a.Str? && b.Str? {
      ChangedByChildren(a, b);
      NullUnchanged();
    }
  }

  lemma TidyFilesChangedIff(a: Json, b: Json)
    requires IsFile(a) && IsFile(b) && TidyEntry(a) && TidyEntry(b)
    ensures Changed(a, b) <==>
      Changed(Child(a, "filename"), Child(b, "filename")) || StringAt(a, "content") != StringAt(b, "content")
  {
    hide Changed, TextShows;
    var x, y := StringAt(a, "content"), StringAt(b, "content");
    ChangedByChildren(a, b);
    NullUnchanged();
    ChangedFromText("file", Str("file"));
    ChangedFromText(x, Str(y));
    TextsShow("file", "file");
    TextsShow(x, y);
    forall k ensures Changed(Child(a, k), Child(b, k))
                <==> (k == "filename" && Changed(Child(a, k), Child(b, k))) || (k == "content" && x != y)
    {
      assert k !in {"_source", "filename", "content"} ==> Child(a, k) == Null == Child(b, k);
    }
    assert Changed(Child(a, "content"), Child(b, "content")) <==> x != y;
  }

  lemma CompatibleEitherWay(a: Json, b: Json)
    requires Compatible(a, b)
    ensures Compatible(b, a)
    decreases a
  {
  }

  /** Against a file entry a compatible one that is none shows in its source. */
  lemma CompatibleFileShows(d: Digests, file: Json, other: Json)
    requires IsFile(file) && !IsFile(other) && Compatible(file, other)
    ensures FileShows(d, file, other)
  {
    hide Changed, Exposes;
    CompatibleChild(file, other, "_source");
  }

  /** No two contents compared under one key collide. */
  ghost predicate CollisionFree(d: Digests, l: Json, r: Json) {
    forall k :: !Collide(d, Entry(l, k), Entry(r, k))
  }

  /** For compatible tidy specs: all lines go exactly if they lie in entries, each of which hides its own. */
  lemma RedactionHidesIff(d: Digests, l: Json, r: Json)
    requires Changed(l, r) && Compatible(l, r) && Tidy(l) && Tidy(r)
    ensures !Changed(Redacted(d, l), Redacted(d, r)) <==>
      !ChangedElsewhere(l, r) && forall k | Changed(Entry(l, k), Entry(r, k)) ::
        EntryHides(d, Entry(l, k), Entry(r, k))
  {
    hide Changed, ChangedElsewhere, EntryShows, EntryHides, Redacted, Compatible, Tidy, TidyEntry;
    RedactionShowsIff(d, l, r);
    forall k
      ensures Changed(Entry(l, k), Entry(r, k)) && !EntryShows(d, Entry(l, k), Entry(r, k))
         <==> EntryHides(d, Entry(l, k), Entry(r, k))
      ensures EntryShows(d, Entry(l, k), Entry(r, k)) ==> Changed(Entry(l, k), Entry(r, k))
    {
      EntriesFit(l, r, k);
      EntryHidesIff(d, Entry(l, k), Entry(r, k));
      if EntryShows(d, Entry(l, k), Entry(r, k)) {
        EntryAddsNothing(d, Entry(l, k), Entry(r, k));
      }
    }
  }

  lemma EntryAddsNothing(d: Digests, a: Json, b: Json)
    requires Compatible(a, b) && EntryShows(d, a, b)
    ensures Changed(a, b)
  {
    hide Changed, EntryShows, RedactEntry, Compatible, Norm;
    EntryShowsIff(d, a, b);
    if !Changed(a, b) {
      NormEqualIfUnchanged(a, b);
      EntryKeepsNorm(d, a, b);
      UnchangedIfNormEqual(RedactEntry(d, a), RedactEntry(d, b));
    }
  }

  lemma EntriesFit(l: Json, r: Json, k: string)
    requires Compatible(l, r) && Tidy(l) && Tidy(r)
    ensures Compatible(Entry(l, k), Entry(r, k)) && TidyEntry(Entry(l, k)) && TidyEntry(Entry(r, k))
  {
    CompatibleChild(l, r, "files");
    CompatibleChild(Child(l, "files"), Child(r, "files"), k);
    TidyAt(l, k);
    TidyAt(r, k);
  }

  lemma TidyAt(spec: Json, k: string)
    requires Tidy(spec)
    ensures TidyEntry(Entry(spec, k))
  {
    hide TidyEntry;
    NullIsTidy();
  }

  lemma NullIsTidy()
    ensures TidyEntry(Null)
  {
  }

  /** Where no two contents compared collide, redaction hides no change. */
  lemma CollisionFreeHidesNothing(d: Digests, l: Json, r: Json)
    requires Changed(l, r) && Compatible(l, r) && Tidy(l) && Tidy(r)
    requires CollisionFree(d, l, r)
    ensures Changed(Redacted(d, l), Redacted(d, r))
  {
    hide Changed, ChangedElsewhere, Collide, Redacted, Compatible, Tidy;
    RedactionHidesIff(d, l, r);
    ChangedByEntries(l, r);
  }

  /** A spec with a single file entry k. */
  function Single(entry: Json): Json {
    Obj(map["files" := Obj(map["k" := entry])])
  }

  lemma SingleParts(d: Digests, entry: Json)
    ensures Child(Child(Single(entry), "files"), "k") == entry
    ensures Redacted(d, Single(entry)) == Single(RedactEntry(d, entry))
  {
    var files := Obj(map["k" := entry]);
    assert RedactFiles(d, files) == Obj(map["k" := RedactEntry(d, entry)]);
    assert map["files" := files]["files" := RedactFiles(d, files)] == map["files" := RedactFiles(d, files)];
  }

  lemma AtSingle(v: Json, path: seq<string>)
    ensures At(Single(v), ["files", "k"] + path) == At(v, path)
  {
    var full := ["files", "k"] + path;
    assert full[1..] == ["k"] + path && full[1..][1..] == path;
    assert Child(Single(v), "files") == Obj(map["k" := v]);
    assert At(Single(v), full) == At(Obj(map["k" := v]), full[1..]);
  }

  lemma SingleReports(a: Json, b: Json, path: seq<string>)
    requires Reported(a, b, path)
    ensures Changed(Single(a), Single(b))
  {
    AtSingle(a, path);
    AtSingle(b, path);
    assert Reported(Single(a), Single(b), ["files", "k"] + path);
  }

  function FileEntry(content: Json): Json {
    Obj(map["_source" := Str("file"), "content" := content])
  }

  /** Two entries that redact alike: the plain diff has a line and the redacted one has none. */
  lemma AlikeHides(d: Digests, a: Json, b: Json, at: seq<string>)
    requires Compatible(a, b) && TidyEntry(a) && TidyEntry(b)
    requires Reported(a, b, at) && RedactEntry(d, a) == RedactEntry(d, b)
    ensures exists l, r :: Compatible(l, r) && Tidy(l) && Tidy(r) && Changed(l, r)
                        && !Changed(Redacted(d, l), Redacted(d, r))
  {
    hide Changed, Reported, RedactEntry, Redacted, Compatible, Tidy, TidyEntry, Single;
    SingleParts(d, a);
    SingleParts(d, b);
    SingleReports(a, b, at);
    UnchangedIfNormEqual(Single(RedactEntry(d, a)), Single(RedactEntry(d, b)));
    SingleFits(d, a, b);
    assert Compatible(Single(a), Single(b)) && Tidy(Single(a)) && Tidy(Single(b));
  }

  lemma SingleFits(d: Digests, a: Json, b: Json)
    requires Compatible(a, b) && TidyEntry(a) && TidyEntry(b)
    ensures Compatible(Single(a), Single(b)) && Tidy(Single(a)) && Tidy(Single(b))
  {
    hide TidyEntry;
    var fa, fb := Obj(map["k" := a]), Obj(map["k" := b]);
    assert Child(Single(a), "files") == fa && Child(Single(b), "files") == fb;
    assert Compatible(fa, fb);
  }

  /** Two contents with one digest do. */
  lemma CollisionHides(d: Digests, x: string, y: string, inline: bool)
    requires x != y && if inline then d.inline(x) == d.inline(y) else d.file(x) == d.file(y)
    ensures exists l, r :: Compatible(l, r) && Tidy(l) && Tidy(r) && Changed(l, r)
                        && !Changed(Redacted(d, l), Redacted(d, r))
  {
    hide Changed, Compatible, Tidy, Redacted;
    if inline {
      assert Compatible(Str(x), Str(y)) by { CompatibleTexts(x, y); }
      AlikeHides(d, Str(x), Str(y), []);
    } else {
      var a, b := FileEntry(Str(x)), FileEntry(Str(y));
      CompatibleTexts(x, y);
      assert ["content"][1..] == [];
      AlikeHides(d, a, b, ["content"]);
    }
  }

  lemma CompatibleTexts(x: string, y: string)
    ensures Compatible(Str(x), Str(y)) && Compatible(FileEntry(Str(x)), FileEntry(Str(y)))
  {
  }

  /** Redaction keeps the verdict of every compatible, tidy pair iff no two contents share a digest. */
  lemma RedactionIsFaithfulIff(d: Digests)
    ensures (forall l, r | Compatible(l, r) && Tidy(l) && Tidy(r) ::
               Changed(l, r) <==> Changed(Redacted(d, l), Redacted(d, r)))
       <==> Injective(d.inline) && Injective(d.file)
  {
    if Injective(d.inline) && Injective(d.file) {
      forall l, r | Compatible(l, r) && Tidy(l) && Tidy(r)
        ensures Changed(l, r) <==> Changed(Redacted(d, l), Redacted(d, r))
      {
        if Changed(l, r) {
          assert CollisionFree(d, l, r);
          CollisionFreeHidesNothing(d, l, r);
        }
        if Changed(Redacted(d, l), Redacted(d, r)) { RedactionAddsNothing(d, l, r); }
      }
    } else if !Injective(d.inline) {
      var x, y :| d.inline(x) == d.inline(y) && x != y;
      CollisionHides(d, x, y, true);
    } else {
      var x, y :| d.file(x) == d.file(y) && x != y;
      CollisionHides(d, x, y, false);
    }
  }

  // ----- concrete pairs that gain a line

  lemma SilentSingle(a: Json, b: Json)
    requires !Changed(a, b)
    ensures !Changed(Single(a), Single(b))
  {
    hide Changed;
    var fa, fb := Obj(map["k" := a]), Obj(map["k" := b]);
    NullUnchanged();
    forall k ensures !Changed(Child(fa, k), Child(fb, k)) { }
    ChangedByChildren(fa, fb);
    forall k ensures !Changed(Child(Single(a), k), Child(Single(b), k)) { }
    ChangedByChildren(Single(a), Single(b));
  }

  lemma NullUnchanged()
    ensures !Changed(Null, Null)
  {
  }

  lemma SingleAdds(d: Digests, a: Json, b: Json)
    requires !Changed(a, b) && EntryAdds(d, a, b)
    ensures !Changed(Single(a), Single(b)) && Changed(Redacted(d, Single(a)), Redacted(d, Single(b)))
  {
    hide Changed, EntryAdds, Redacted;
    SilentSingle(a, b);
    SingleParts(d, a);
    SingleParts(d, b);
    RedactionAddsIff(d, Single(a), Single(b));
    assert Entry(Single(a), "k") == a && Entry(Single(b), "k") == b;
  }

  function SourceOnly(source: Json): Json {
    Obj(map["_source" := source])
  }

  /** {"_source": "file"} against {"_source": {}}: no plain line, but a redacted one. */
  lemma ClashAddsLine(d: Digests)
    ensures var l, r := Single(SourceOnly(Str("file"))), Single(SourceOnly(Obj(map[])));
            !Changed(l, r) && Changed(Redacted(d, l), Redacted(d, r))
  {
    hide Changed;
    var a, b := SourceOnly(Str("file")), SourceOnly(Obj(map[]));
    EmptyAgainstText("file");
    NullUnchanged();
    forall k ensures !Changed(Child(a, k), Child(b, k)) { }
    ChangedByChildren(a, b);
    SingleAdds(d, a, b);
  }

  lemma EmptyAgainstText(x: string)
    ensures !Changed(Str(x), Obj(map[]))
  {
    hide Changed;
    ChangedFromText(x, Obj(map[]));
    NormFromChildren(Obj(map[]), Null);
    NormOfNull();
  }

  /** Two file entries, content x against {}: a line appears whenever x and the empty text digest apart. */
  lemma ContentClashAddsLine(d: Digests, x: string)
    requires d.file(x) != d.file("")
    ensures var l, r := Single(FileEntry(Str(x))), Single(FileEntry(Obj(map[])));
            !Changed(l, r) && Changed(Redacted(d, l), Redacted(d, r))
  {
    hide Changed;
    var a, b := FileEntry(Str(x)), FileEntry(Obj(map[]));
    EmptyAgainstText(x);
    NullUnchanged();
    ChangedFromText("file", Str("file"));
    forall k ensures !Changed(Child(a, k), Child(b, k)) { }
    ChangedByChildren(a, b);
    SingleAdds(d, a, b);
  }
}
