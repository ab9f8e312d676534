/** The test-case button's check on the uploaded files: exactly two files,
    each bound to the SRS or the SDD role by a substring of its lower-cased
    name, and the run may start only once both roles are bound. */
module Classification {
  import opened Text

  datatype Option<T> = None | Some(value: T)

  /** An uploaded file: the name the browser sent and its bytes. */
  datatype UploadedFile = UploadedFile(name: string, data: seq<bv8>)

  /** `"srs" in uploaded_file.name.lower()` */
  predicate NamesSrs(f: UploadedFile) {
    Contains(Lower(f.name), "srs")
  }

  /** `"sdd" in uploaded_file.name.lower()` */
  predicate NamesSdd(f: UploadedFile) {
    Contains(Lower(f.name), "sdd")
  }

  /** A name the `elif` branch binds to SDD: it mentions "sdd" and not "srs". */
  predicate NamesOnlySdd(f: UploadedFile) {
    NamesSdd(f) && !NamesSrs(f)
  }

  /** The two local variables `uploaded_srs` and `uploaded_sdd`. */
  datatype Roles = Roles(srs: Option<UploadedFile>, sdd: Option<UploadedFile>)

  const Unbound := Roles(None, None)

  /** One pass of the loop body: the SRS test first, the SDD test only in
      its `elif`, and a match overwrites whatever the role held. */
  function Step(r: Roles, f: UploadedFile): (r': Roles)
    ensures r'.srs == r.srs || r'.sdd == r.sdd
    ensures r'.srs != r.srs ==> r'.srs == Some(f) && NamesSrs(f)
    ensures r'.sdd != r.sdd ==> r'.sdd == Some(f) && NamesOnlySdd(f)
  {
    if NamesSrs(f) then r.(srs := Some(f))
    else if NamesSdd(f) then r.(sdd := Some(f))
    else r
  }

  /** The roles after the loop has visited `files` in upload order, starting
      from both roles unbound. */
  function BindAll(files: seq<UploadedFile>): (r: Roles)
    ensures r.srs.Some? ==> r.srs.value in files && NamesSrs(r.srs.value)
    ensures r.sdd.Some? ==> r.sdd.value in files && NamesOnlySdd(r.sdd.value)
    decreases |files|
  {
    if files == [] then Unbound
    else Step(BindAll(files[..|files| - 1]), files[|files| - 1])
  }

  /** What the button handler decides before any pipeline runs. */
  datatype Classification =
    | WrongCount                                   // not exactly two files
    | NotOneOfEach                                 // a role stayed unbound
    | Ready(srs: UploadedFile, sdd: UploadedFile)  // both roles bound

  function Classify(files: seq<UploadedFile>): (c: Classification)
    ensures c == WrongCount <==> |files| != 2
  {
    if |files| != 2 then WrongCount
    else
      var roles := BindAll(files);
      if roles.srs.Some? && roles.sdd.Some? then Ready(roles.srs.value, roles.sdd.value)
      else NotOneOfEach
  }

  /** The handler as it runs: the count check, then the loop rebinding the
      two roles, then the check that both are bound. */
  method ClassifyUploads(files: seq<UploadedFile>) returns (c: Classification)
    ensures c == Classify(files)
  {
    if |files| != 2 {
      return WrongCount;
    }
    var uploadedSrs: Option<UploadedFile> := None;
    var uploadedSdd: Option<UploadedFile> := None;
    var i := 0;
    while i < |files|
      invariant 0 <= i <= |files|
      invariant Roles(uploadedSrs, uploadedSdd) == BindAll(files[..i])
    {
      var f := files[i];
      if NamesSrs(f) {
        uploadedSrs := Some(f);
      } else if NamesSdd(f) {
        uploadedSdd := Some(f);
      }
      assert files[..i + 1][..i] == files[..i];
      i := i + 1;
    }
    assert files[..i] == files;
    if uploadedSrs.Some? && uploadedSdd.Some? {
      c := Ready(uploadedSrs.value, uploadedSdd.value);
    } else {
      c := NotOneOfEach;
    }
  }

  /** `files[i]` is the last upload whose name mentions "srs". */
  ghost predicate LastSrsAt(files: seq<UploadedFile>, i: int) {
    0 <= i < |files| && NamesSrs(files[i]) &&
    forall j :: i < j < |files| ==> !NamesSrs(files[j])
  }

  /** `files[i]` is the last upload the `elif` branch binds to SDD. */
  ghost predicate LastSddAt(files: seq<UploadedFile>, i: int) {
    0 <= i < |files| && NamesOnlySdd(files[i]) &&
    forall j :: i < j < |files| ==> !NamesOnlySdd(files[j])
  }

  /** The SRS role ends up unbound exactly when no name mentions "srs", and
      otherwise holds the last upload that does (a later match overwrites). */
  lemma {:induction false} BindAllSrs(files: seq<UploadedFile>)
    ensures BindAll(files).srs.None? <==> forall i :: 0 <= i < |files| ==> !NamesSrs(files[i])
    ensures forall i :: LastSrsAt(files, i) ==> BindAll(files).srs == Some(files[i])
    decreases |files|
  {
    if files != [] {
      var n := |files| - 1;
      var init := files[..n];
      BindAllSrs(init);
      assert forall i :: 0 <= i < n ==> init[i] == files[i];
      forall i | LastSrsAt(files, i)
        ensures BindAll(files).srs == Some(files[i])
      {
        if i < n {
          assert LastSrsAt(init, i);
        }
      }
    }
  }

  /** The SDD role ends up unbound exactly when no name mentions "sdd"
      without also mentioning "srs", and otherwise holds the last such upload. */
  lemma {:induction false} BindAllSdd(files: seq<UploadedFile>)
    ensures BindAll(files).sdd.None? <==> forall i :: 0 <= i < |files| ==> !NamesOnlySdd(files[i])
    ensures forall i :: LastSddAt(files, i) ==> BindAll(files).sdd == Some(files[i])
    decreases |files|
  {
    if files != [] {
      var n := |files| - 1;
      var init := files[..n];
      BindAllSdd(init);
      assert forall i :: 0 <= i < n ==> init[i] == files[i];
      forall i | LastSddAt(files, i)
        ensures BindAll(files).sdd == Some(files[i])
      {
        if i < n {
          assert LastSddAt(init, i);
        }
      }
    }
  }

  /** The loop over two uploads, unrolled. */
  lemma BindPair(a: UploadedFile, b: UploadedFile)
    ensures BindAll([a, b]) == Step(Step(Unbound, a), b)
  {
    assert [a, b][..1] == [a];
    assert [a][..0] == [];
    assert BindAll([a]) == Step(BindAll([]), a);
  }

  /** Two uploads are ready exactly when one name mentions "srs" and the
      other mentions "sdd" but not "srs"; the roles then go to those two
      distinct files, whichever order they were uploaded in. */
  lemma ClassifyPair(a: UploadedFile, b: UploadedFile)
    ensures Classify([a, b]).Ready? <==>
              (NamesSrs(a) && NamesOnlySdd(b)) || (NamesSrs(b) && NamesOnlySdd(a))
    ensures NamesSrs(a) && NamesOnlySdd(b) ==> Classify([a, b]) == Ready(a, b)
    ensures NamesSrs(b) && NamesOnlySdd(a) ==> Classify([a, b]) == Ready(b, a)
    ensures Classify([a, b]).Ready? ==> Classify([a, b]).srs != Classify([a, b]).sdd
  {
    BindPair(a, b);
  }

  /** Swapping the upload order never changes the outcome. */
  lemma ClassifyOrderIndependent(a: UploadedFile, b: UploadedFile)
    ensures Classify([a, b]) == Classify([b, a])
  {
    ClassifyPair(a, b);
    ClassifyPair(b, a);
  }

  /** A name mentioning both markers is bound to SRS (the `elif` is never
      reached for it), so it pairs with an SDD-only name in either order. */
  lemma SrsTakesPrecedence(a: UploadedFile, b: UploadedFile)
    requires NamesSrs(a) && NamesSdd(a) && NamesOnlySdd(b)
    ensures Classify([a, b]) == Ready(a, b)
    ensures Classify([b, a]) == Ready(a, b)
  {
    ClassifyPair(a, b);
    ClassifyPair(b, a);
  }

  /** If both names mention "srs", the second overwrites the first, SDD stays
      unbound and the run does not start. */
  lemma BothSrsNotReady(a: UploadedFile, b: UploadedFile)
    requires NamesSrs(a) && NamesSrs(b)
    ensures BindAll([a, b]) == Roles(Some(b), None)
    ensures Classify([a, b]) == NotOneOfEach
  {
    BindPair(a, b);
  }

  /** Whatever is bound comes from the uploads, names the right marker, and
      the two roles never share a file. */
  lemma ClassifyReadySound(files: seq<UploadedFile>)
    requires Classify(files).Ready?
    ensures Classify(files).srs in files && NamesSrs(Classify(files).srs)
    ensures Classify(files).sdd in files && NamesOnlySdd(Classify(files).sdd)
    ensures Classify(files).srs != Classify(files).sdd
  {
    var a, b := files[0], files[1];
    assert files == [a, b];
    ClassifyPair(a, b);
  }

  /** Two names mean the same to the classifier when they lower-case alike. */
  predicate SameLowerNames(files: seq<UploadedFile>, others: seq<UploadedFile>) {
    |files| == |others| &&
    forall i :: 0 <= i < |files| ==> Lower(files[i].name) == Lower(others[i].name)
  }

  lemma {:induction false} BindAllIgnoresCase(files: seq<UploadedFile>, others: seq<UploadedFile>)
    requires SameLowerNames(files, others)
    ensures BindAll(files).srs.Some? == BindAll(others).srs.Some?
    ensures BindAll(files).sdd.Some? == BindAll(others).sdd.Some?
    decreases |files|
  {
    if files != [] {
      var n := |files| - 1;
      BindAllIgnoresCase(files[..n], others[..n]);
    }
  }

  /** Matching is case-insensitive: uploads whose names lower-case alike are
      classified the same way (here "Design_SDD.md" and "design_sdd.md"). */
  lemma ClassifyIgnoresCase(files: seq<UploadedFile>, others: seq<UploadedFile>)
    requires SameLowerNames(files, others)
    ensures Classify(files).Ready? <==> Classify(others).Ready?
    ensures Classify(files) == NotOneOfEach <==> Classify(others) == NotOneOfEach
  {
    BindAllIgnoresCase(files, others);
  }

  /** A name mentions "srs" when some three of its characters spell it in
      any mix of cases. */
  lemma NamesSrsAnyCase(f: UploadedFile)
    ensures NamesSrs(f) <==> exists i :: OccursIgnoringCase(f.name, "srs", i)
  {
    ContainsLowerIgnoresCase(f.name, "srs");
  }

  /** Likewise for "sdd". */
  lemma NamesSddAnyCase(f: UploadedFile)
    ensures NamesSdd(f) <==> exists i :: OccursIgnoringCase(f.name, "sdd", i)
  {
    ContainsLowerIgnoresCase(f.name, "sdd");
  }
}
