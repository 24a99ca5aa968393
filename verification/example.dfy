/** The naming example from the configuration's documentation: the message
    `your_app.services.auth.v1.RegisterRequest` with `["your_app", "services"]` as the
    parent names to leave off. */
module Example {
  import opened Maybe
  import opened Text
  import opened Schema
  import opened Settings
  import opened Naming

  /** The source file, cloned into the temporary directory, without its extension. */
  const Stem: string := "your_app/services/auth/v1/auth"
  const File: string := DefaultTempDir + "/" + Stem + ".proto"

  /** The package chain down to the message, root first. */
  const Tree: Arena := [
    Node("", Root, None, None, [1]),
    Node("your_app", Namespace, Some(0), None, [2]),
    Node("services", Namespace, Some(1), None, [3]),
    Node("auth", Namespace, Some(2), None, [4]),
    Node("v1", Namespace, Some(3), None, [5]),
    Node("RegisterRequest", Message([]), Some(4), Some(File), [])]

  const Ignore: seq<string> := ["your_app", "services"]

  lemma TreeValid()
    ensures ValidArena(Tree) && BraceFreeNames(Tree)
  {
    TreeIsChain();
    ChainValid(Tree);
    TreeBraceFree();
  }

  /** Each node nests the next one only, and no message has fields. */
  predicate Chain(a: Arena) {
    && |a| > 0
    && a[0].kind.Root? && a[0].parent.None? && a[0].name == ""
    && (forall i :: 0 < i < |a| ==> a[i].parent == Some(i - 1) && !a[i].kind.Root?)
    && (forall i :: 0 <= i < |a| ==> a[i].nested == if i + 1 < |a| then [i + 1] else [])
    && (forall i :: 0 <= i < |a| && a[i].kind.Message? ==> a[i].kind.fields == [])
  }

  lemma ChainValid(a: Arena)
    requires Chain(a)
    ensures ValidArena(a)
  {
    forall i | 0 < i < |a| ensures i in a[a[i].parent.value].nested {
      assert a[i - 1].nested == [i];
    }
    forall i, k | 0 <= i < |a| && 0 <= k < |a[i].nested|
      ensures i < a[i].nested[k] < |a| && a[a[i].nested[k]].parent == Some(i)
    {
      assert a[i].nested == [i + 1];
    }
  }

  lemma TreeIsChain()
    ensures Chain(Tree)
  {
    var a := Tree;
    assert |a| == 6;
    forall i | 0 <= i < |a| ensures a[i].nested == if i + 1 < |a| then [i + 1] else [] {
    }
  }

  lemma TreeBraceFree()
    ensures BraceFreeNames(Tree)
  {
    forall j | 0 <= j < |Tree| ensures NoChar(Tree[j].name, '{') {
      var n := Tree[j].name;
      if j == 0 { assert n == ""; }
      else if j == 1 { assert n == "your_app"; NoBrace(n); }
      else if j == 2 { assert n == "services"; NoBrace(n); }
      else if j == 3 { assert n == "auth"; NoBrace(n); }
      else if j == 4 { assert n == "v1"; NoBrace(n); }
      else { assert n == "RegisterRequest"; NoBrace(n); }
    }
  }

  /** A name made of letters, digits and `_` has no `{`. */
  lemma NoBrace(n: string)
    requires forall i :: 0 <= i < |n| ==> 'a' <= n[i] <= 'z' || 'A' <= n[i] <= 'Z' || '0' <= n[i] <= '9' || n[i] == '_'
    ensures NoChar(n, '{')
  {
  }

  /** The parent names left are the root's empty name, `auth` and `v1`. */
  lemma ExampleParentNames()
    ensures ValidArena(Tree) && ParentNames(Tree, 5, Ignore) == ["", "auth", "v1"]
  {
    TreeValid();
    ExampleOwnNames();
    ParentNamesUnfold(Tree, 1, Ignore);
    ParentNamesUnfold(Tree, 2, Ignore);
    ParentNamesUnfold(Tree, 3, Ignore);
    ParentNamesUnfold(Tree, 4, Ignore);
    ParentNamesUnfold(Tree, 5, Ignore);
    assert ParentNames(Tree, 3, Ignore) == [""];
  }

  lemma ExampleOwnNames()
    ensures ValidArena(Tree)
    ensures Own(Tree, 0, Ignore) == [""] && Own(Tree, 1, Ignore) == [] && Own(Tree, 2, Ignore) == []
    ensures Own(Tree, 3, Ignore) == ["auth"] && Own(Tree, 4, Ignore) == ["v1"]
  {
    TreeValid();
  }

  /** With the default template the case function is handed `auth v1  RegisterRequest`,
      which the Pascal case function turns into `AuthV1RegisterRequest`. */
  lemma ExampleTypeName(ext: Externals)
    ensures ValidArena(Tree) && BuildTypeName(Tree, 5, DefaultNameTemplate, ext.pascalCase, Ignore)
         == ext.pascalCase("auth v1  RegisterRequest")
  {
    TreeValid();
    ExampleParentNames();
    DefaultTypeName(Tree, 5, ext.pascalCase, Ignore);
    ExampleTrim();
  }

  lemma ExampleTrim()
    ensures Trim(" " + Join(["", "auth", "v1"], " ") + "  " + "RegisterRequest" + " ") == "auth v1  RegisterRequest"
  {
    ExampleJoin();
    Regroup("auth v1", "RegisterRequest");
    ExampleSpelling();
    TrimAround("  ", "auth v1  RegisterRequest", " ");
  }

  lemma ExampleJoin()
    ensures Join(["", "auth", "v1"], " ") == " " + "auth v1"
  {
    var parts := ["", "auth", "v1"];
    assert parts[1..] == ["auth", "v1"] && parts[1..][1..] == ["v1"];
  }

  lemma ExampleSpelling()
    ensures "auth v1" + "  " + "RegisterRequest" == "auth v1  RegisterRequest"
  {
  }

  lemma Regroup(a: string, b: string)
    ensures " " + (" " + a) + "  " + b + " " == "  " + (a + "  " + b) + " "
  {
  }

  /** Trimming removes white space around a text that starts and ends with something
      else. */
  lemma TrimAround(pre: string, x: string, post: string)
    requires AllWhitespace(pre) && AllWhitespace(post)
    requires |x| > 0 && !IsWhitespace(x[0]) && !IsWhitespace(x[|x| - 1])
    ensures Trim(pre + x + post) == x
  {
    var s := pre + x + post;
    var i, j := |pre|, |pre| + |x|;
    assert s[i] == x[0] && s[j - 1] == x[|x| - 1];
    assert forall k :: 0 <= k < i ==> s[k] == pre[k];
    assert forall k :: j <= k < |s| ==> s[k] == post[k - j];
    assert TrimmedAt(s, i, j);
    TrimUnique(s, i, j);
    assert s[i..j] == x;
  }

  /** The cloned file `your_app/services/auth/v1/auth.proto` is generated as
      `your_app/services/auth/v1/auth.ts`. */
  lemma ExampleFilename()
    ensures ValidArena(Tree) && GeneratedFilename(DefaultConfig, Tree, 5) == Stem + ".ts"
  {
    TreeValid();
    StemHasNoProto();
    ClonedFilename(Tree, 5, Stem);
  }

  lemma StemHasNoProto()
    ensures IndexOf(Stem, ".proto").None?
  {
    assert forall c :: c in Stem ==> c != '.';
    DotlessHasNoProto(Stem);
  }

  /** A path without a dot has no `.proto` in it. */
  lemma DotlessHasNoProto(s: string)
    requires NoChar(s, '.')
    ensures IndexOf(s, ".proto").None?
  {
    forall j | 0 <= j <= |s| ensures !OccursAt(s, ".proto", j) {
      if j + 6 <= |s| {
        assert s[j..j + 6][0] == s[j];
      }
    }
  }

  /** A node whose file was cloned into the default temporary directory. */
  lemma ClonedFilename(a: Arena, i: nat, stem: string)
    requires ValidArena(a) && i < |a| && IndexOf(stem, ".proto").None?
    requires a[i].filename == Some(DefaultTempDir + "/" + stem + ".proto")
    ensures GeneratedFilename(DefaultConfig, a, i) == stem + ".ts"
  {
    GeneratedFilenameOfClonedFile(DefaultTempDir, stem);
  }
}
