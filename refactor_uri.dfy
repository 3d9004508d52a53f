/** The namespace-rewrite script: every listed file that exists and mentions the old
    namespace has each occurrence replaced by the new one, and the rewritten files are
    collected in list order. A file that cannot be read or written is skipped and the
    loop goes on. */
module RefactorUri {
  import opened Common
  import opened Text

  const OLD_URI: string := "http://snu.ac.kr/math/"
  const NEW_URI: string := "http://math.bot/ontology/"

  /** The files the script visits, in order. */
  const FILES_TO_CHECK: seq<string> := [
    "data/ontology/math_tbox.ttl",
    "data/knowledge_graph/math_abox.ttl",
    "visualize_graph.py",
    "app/reasoning_engine.py",
    "export_ontology_report.py",
    "connect_prerequisites.py",
    "verify_connections.py",
    "import_hierarchy_report.py",
    "import_curriculum.py",
    "import_proposed_additions.py",
    "enrich_ontology.py",
    "app/graph_loader.py",
    "data/knowledge_graph/math_abox_prev.ttl",
    "data/ontology/math_tbox_prev.ttl",
    "data/knowledge_graph/math_abox_prev_v2.ttl",
    "data/ontology/math_tbox_prev_v2.ttl"
  ]

  /** A file on disk: its text as Python reads it in UTF-8 text mode (line endings
      already turned into "\n"), whether that read succeeds, and whether opening it
      for writing and writing it succeed. */
  datatype File = File(content: string, readable: bool, writable: bool)

  /** The files on disk, by path; a path is present exactly when it exists. */
  class FileSystem {
    var files: map<string, File>

    constructor (initial: map<string, File>)
      ensures files == initial
    {
      files := initial;
    }

    /** Overwrite the text of an existing, writable file. */
    method Write(path: string, content: string)
      requires path in files && files[path].writable
      modifies this
      ensures files == old(files)[path := old(files)[path].(content := content)]
    {
      files := files[path := files[path].(content := content)];
    }
  }

  /** A file the loop body rewrites: it exists, reads, mentions the old namespace and
      can be written back. */
  predicate Rewritable(files: map<string, File>, path: string) {
    path in files && files[path].readable && Contains(files[path].content, OLD_URI) && files[path].writable
  }

  function Rewritten(f: File): File {
    f.(content := Replace(f.content, OLD_URI, NEW_URI))
  }

  /** The files and the `files_changed` list after a run over some paths. */
  datatype Outcome = Outcome(files: map<string, File>, changed: seq<string>)

  /** The run over `paths`, one loop iteration per path. */
  function Run(files: map<string, File>, paths: seq<string>): Outcome
    decreases |paths|
  {
    if |paths| == 0 then Outcome(files, [])
    else
      var prev := Run(files, paths[..|paths| - 1]);
      var path := paths[|paths| - 1];
      if Rewritable(prev.files, path)
      then Outcome(prev.files[path := Rewritten(prev.files[path])], prev.changed + [path])
      else prev
  }

  /** The loop of the script over `paths`; the returned total is what it reports. */
  method Refactor(fs: FileSystem, paths: seq<string>) returns (filesChanged: seq<string>, total: nat)
    modifies fs
    ensures Outcome(fs.files, filesChanged) == Run(old(fs.files), paths)
    ensures total == |filesChanged|
  {
    filesChanged := [];
    var i := 0;
    while i < |paths|
      invariant 0 <= i <= |paths|
      invariant Outcome(fs.files, filesChanged) == Run(old(fs.files), paths[..i])
    {
      var path := paths[i];
      assert paths[..i + 1][..i] == paths[..i];
      if path in fs.files {
        var f := fs.files[path];
        if f.readable {
          var content := f.content;
          if Contains(content, OLD_URI) {
            var newContent := Replace(content, OLD_URI, NEW_URI);
            if f.writable {
              fs.Write(path, newContent);
              filesChanged := filesChanged + [path];
            }
          }
        }
      }
      i := i + 1;
    }
    assert paths[..i] == paths;
    total := |filesChanged|;
  }

  /** The script itself, over its fixed list. */
  method RefactorUri(fs: FileSystem) returns (total: nat)
    modifies fs
    ensures fs.files == Run(old(fs.files), FILES_TO_CHECK).files
    ensures total == |Run(old(fs.files), FILES_TO_CHECK).changed| <= |FILES_TO_CHECK|
  {
    var changed;
    changed, total := Refactor(fs, FILES_TO_CHECK);
    RunChanged(old(fs.files), FILES_TO_CHECK);
  }

  // ---------------------------------------------------------------------------
  // The rewritten text holds no old namespace

  lemma OldUriShape()
    ensures |OLD_URI| == 22 && OLD_URI[0] == 'h' && OLD_URI[1] == 't' && OLD_URI[7] == 's' && OLD_URI[21] == '/'
    ensures forall k | 0 <= k < |OLD_URI| :: OLD_URI[k] == 'h' ==> k == 0 || k == 20
  {
  }

  lemma NewUriShape()
    ensures |NEW_URI| == 25 && NEW_URI[0] == 'h' && NEW_URI[1] == 't' && NEW_URI[7] == 'm' && NEW_URI[11] == '.'
    ensures forall k | 0 <= k < |NEW_URI| :: NEW_URI[k] == 'h' ==> k == 0 || k == 10
  {
  }

  /** A position where the pattern occurs. */
  lemma {:induction false} ContainsPosition(s: string, p: string) returns (i: nat)
    requires Contains(s, p)
    ensures i + |p| <= |s| && s[i..i + |p|] == p
    decreases |s|
  {
    if StartsWith(s, p) {
      i := 0;
    } else {
      var j := ContainsPosition(s[1..], p);
      i := j + 1;
      assert s[i..i + |p|] == s[1..][j..j + |p|];
    }
  }

  /** The new namespace cannot be the start, the middle or the end of an occurrence of
      the old one. */
  lemma NoOldThroughNew(rest: string)
    requires !Contains(rest, OLD_URI)
    ensures !Contains(NEW_URI + rest, OLD_URI)
  {
    var x := NEW_URI + rest;
    if Contains(x, OLD_URI) {
      OldUriShape();
      NewUriShape();
      var i := ContainsPosition(x, OLD_URI);
      assert x[i..i + 22][0] == x[i] == 'h';
      if i >= 25 {
        assert x[i..i + 22] == rest[i - 25..i - 25 + 22];
        ContainsAt(rest, OLD_URI, i - 25);
      } else {
        assert false;
      }
    }
  }

  /** No text starting with the new namespace starts like a proper tail of the old one. */
  lemma NewIsNoOldTail(x: string, k: nat)
    requires 1 <= k < |OLD_URI|
    ensures !StartsWith(NEW_URI + x, OLD_URI[k..])
  {
    OldUriShape();
    NewUriShape();
    var r, w := NEW_URI + x, OLD_URI[k..];
    assert r[0] == 'h' && r[1] == 't';
    if k != 20 {
      assert w[0] != 'h';
    } else {
      assert w[1] == '/';
    }
  }

  /** A rewritten text that starts like the tail of the old namespace comes from a text
      that started that way. */
  lemma {:induction false} ReplacedTail(t: string, k: nat)
    requires 1 <= k < |OLD_URI|
    ensures StartsWith(Replace(t, OLD_URI, NEW_URI), OLD_URI[k..]) ==> StartsWith(t, OLD_URI[k..])
  {
    forall j, x | k <= j < |OLD_URI|
      ensures !StartsWith(NEW_URI + x, OLD_URI[j..])
    {
      NewIsNoOldTail(x, j);
    }
    ReplacedTailOf(t, OLD_URI, NEW_URI, k);
  }

  /** The same for any pattern and replacement such that no text starting with the
      replacement starts like a tail of the pattern from position `k` on. */
  lemma {:induction false} ReplacedTailOf(t: string, pat: string, rep: string, k: nat)
    requires 1 <= k < |pat|
    requires forall j, x :: k <= j < |pat| ==> !StartsWith(rep + x, pat[j..])
    ensures StartsWith(Replace(t, pat, rep), pat[k..]) ==> StartsWith(t, pat[k..])
    decreases |t|
  {
    var w := pat[k..];
    if |t| >= |pat| {
      if t[..|pat|] == pat {
        var x := Replace(t[|pat|..], pat, rep);
        assert Replace(t, pat, rep) == rep + x;
        assert !StartsWith(rep + x, pat[k..]);
      } else {
        var y := Replace(t[1..], pat, rep);
        assert Replace(t, pat, rep) == [t[0]] + y;
        assert t == [t[0]] + t[1..];
        StartsWithCons(t[0], y, w);
        StartsWithCons(t[0], t[1..], w);
        if k < |pat| - 1 {
          assert w[1..] == pat[k + 1..];
          ReplacedTailOf(t[1..], pat, rep, k + 1);
        } else {
          assert w[1..] == [];
        }
      }
    }
  }

  /** After every occurrence is replaced, none is left. */
  lemma {:induction false} NoOldAfterReplace(s: string)
    ensures !Contains(Replace(s, OLD_URI, NEW_URI), OLD_URI)
    decreases |s|
  {
    var r := Replace(s, OLD_URI, NEW_URI);
    if |s| < |OLD_URI| {
      if Contains(r, OLD_URI) { ContainsLength(r, OLD_URI); }
    } else if s[..|OLD_URI|] == OLD_URI {
      NoOldAfterReplace(s[|OLD_URI|..]);
      NoOldThroughNew(Replace(s[|OLD_URI|..], OLD_URI, NEW_URI));
    } else {
      var y := Replace(s[1..], OLD_URI, NEW_URI);
      NoOldAfterReplace(s[1..]);
      assert r == [s[0]] + y && r[1..] == y;
      if StartsWith(r, OLD_URI) {
        assert y[..|OLD_URI| - 1] == r[..|OLD_URI|][1..] == OLD_URI[1..];
        ReplacedTail(s[1..], 1);
      }
    }
  }

  // ---------------------------------------------------------------------------
  // What a run does

  /** Every file keeps its place; a listed file is rewritten exactly when it was
      rewritable before the run, and every other file keeps its content. A repeated
      path finds its file already rewritten. */
  lemma {:induction false} RunFiles(before: map<string, File>, paths: seq<string>)
    ensures Run(before, paths).files.Keys == before.Keys
    ensures forall p :: p in before ==>
              Run(before, paths).files[p] == if p in paths && Rewritable(before, p) then Rewritten(before[p]) else before[p]
    decreases |paths|
  {
    if |paths| > 0 {
      var prefix, last := paths[..|paths| - 1], paths[|paths| - 1];
      assert paths == prefix + [last];
      RunFiles(before, prefix);
      var mid := Run(before, prefix).files;
      if last in before && last in prefix && Rewritable(before, last) {
        NoOldAfterReplace(before[last].content);
      }
    }
  }

  /** `files_changed` names each rewritten file once, and nothing else; it is never
      longer than the list of paths. */
  lemma {:induction false} RunChanged(before: map<string, File>, paths: seq<string>)
    ensures forall p :: p in Run(before, paths).changed <==> p in paths && Rewritable(before, p)
    ensures Distinct(Run(before, paths).changed)
    ensures |Run(before, paths).changed| <= |paths|
    decreases |paths|
  {
    if |paths| > 0 {
      var prefix, last := paths[..|paths| - 1], paths[|paths| - 1];
      assert paths == prefix + [last];
      RunChanged(before, prefix);
      RunFiles(before, prefix);
      if last in before && last in prefix && Rewritable(before, last) {
        NoOldAfterReplace(before[last].content);
      }
    }
  }

  /** The listed paths whose files are rewritable, in list order. */
  function Selected(files: map<string, File>, paths: seq<string>): seq<string>
    decreases |paths|
  {
    if |paths| == 0 then []
    else
      var prev := Selected(files, paths[..|paths| - 1]);
      if Rewritable(files, paths[|paths| - 1]) then prev + [paths[|paths| - 1]] else prev
  }

  /** With a list that names each file once, `files_changed` is the rewritable files in
      list order. */
  lemma {:induction false} RunOrder(before: map<string, File>, paths: seq<string>)
    requires Distinct(paths)
    ensures Run(before, paths).changed == Selected(before, paths)
    decreases |paths|
  {
    if |paths| > 0 {
      var prefix, last := paths[..|paths| - 1], paths[|paths| - 1];
      assert Distinct(prefix);
      RunOrder(before, prefix);
      RunFiles(before, prefix);
      assert last !in prefix;
    }
  }

  /** The fixed list names each file once. */
  lemma FilesToCheckDistinct()
    ensures Distinct(FILES_TO_CHECK)
  {
  }

  /** A run that finds nothing rewritable changes nothing. */
  lemma {:induction false} RunOverNothing(files: map<string, File>, paths: seq<string>)
    requires forall p :: p in paths ==> !Rewritable(files, p)
    ensures Run(files, paths) == Outcome(files, [])
    decreases |paths|
  {
    if |paths| > 0 {
      assert forall p :: p in paths[..|paths| - 1] ==> p in paths;
      RunOverNothing(files, paths[..|paths| - 1]);
    }
  }

  /** Running the script a second time rewrites nothing. */
  lemma SecondRunChangesNothing(before: map<string, File>, paths: seq<string>)
    ensures var after := Run(before, paths).files;
            Run(after, paths) == Outcome(after, [])
  {
    var after := Run(before, paths).files;
    RunFiles(before, paths);
    forall p | p in paths
      ensures !Rewritable(after, p)
    {
      if p in before && p in paths && Rewritable(before, p) {
        NoOldAfterReplace(before[p].content);
      }
    }
    RunOverNothing(after, paths);
  }
}
