/**
 * The first-generation, list-based journal. Its key names are those of the set-based journal
 * applied to the key with every NUL namespace separator turned into `:`; the tag and entry
 * indices are lists filled with RPUSH and emptied with LREM.
 */
module LegacyJournal {
  import opened Wrappers
  import opened Strings
  import opened Seqs
  import Store
  import Server
  import Journal

  /** The key with every namespace separator replaced by `:`. */
  function Mangle(s: string): (r: string)
    ensures NUL !in r
    ensures NUL !in s ==> r == s
  {
    ReplaceChar(s, NUL, ":")
  }

  /** getEntryKey */
  function GetEntryKey(key: string, suffix: string): (r: string)
    ensures Journal.Prefix <= r
    ensures NUL !in suffix ==> NUL !in r
    ensures NUL !in key ==> r == Journal.FormatKey(key, suffix)
  {
    var r := Journal.FormatKey(Mangle(key), suffix);
    assert NUL !in Journal.Prefix;
    r
  }

  /** `<tag>:keys`, the list of a tag's entries */
  function TagKeys(tag: string): string {
    Journal.TagKeys(Mangle(tag))
  }

  /** `<key>:tags`, the list of an entry's tags */
  function EntryTags(key: string): string {
    Journal.EntryTags(Mangle(key))
  }

  /** `<key>:priority`, only ever deleted */
  function EntryPriority(key: string): string {
    Journal.EntryPriority(Mangle(key))
  }

  /** The names are getEntryKey with the suffixes "keys", "tags" and "priority". */
  lemma NamesAreEntryKeys(x: string)
    ensures TagKeys(x) == GetEntryKey(x, "keys") && EntryTags(x) == GetEntryKey(x, "tags")
    ensures EntryPriority(x) == GetEntryKey(x, "priority")
    ensures Journal.PriorityKey() == GetEntryKey("priority", "")
  {
    Journal.KeyNamesAreFormatted(Mangle(x));
    Journal.KeyNamesAreFormatted("priority");
  }

  /** Keys that differ only in `:` against NUL share their index lists. */
  lemma SeparatorCollides()
    ensures EntryTags("a" + [NUL] + "b") == EntryTags("a:b")
  {
    ReplaceCharAppend("a", [NUL] + "b", NUL, ":");
    ReplaceCharAppend([NUL], "b", NUL, ":");
    assert "a" + ([NUL] + "b") == "a" + [NUL] + "b";
    assert ReplaceChar([NUL], NUL, ":") == ":" by {
      assert [NUL][1..] == [];
    }
    assert Mangle("a" + [NUL] + "b") == "a:b";
  }

  lemma NamesDistinct(a: string, b: string)
    ensures TagKeys(a) != EntryTags(b) && TagKeys(a) != EntryPriority(b) && EntryTags(a) != EntryPriority(b)
    ensures TagKeys(a) != Journal.PriorityKey() && EntryTags(a) != Journal.PriorityKey()
    ensures EntryPriority(a) != Journal.PriorityKey()
  {
    Journal.KeysDistinct(Mangle(a), Mangle(b));
  }

  /** Appending a key to a list and then removing it leaves what removing it alone leaves. */
  lemma {:induction false} WithoutSnoc(l: seq<string>, v: string)
    ensures Store.Without(l + [v], v) == Store.Without(l, v)
    decreases |l|
  {
    if l == [] {
      assert [v][1..] == [];
    } else {
      assert (l + [v])[1..] == l[1..] + [v];
      WithoutSnoc(l[1..], v);
    }
  }

  /** The tag lists of the tags `ts`. */
  function TagLists(ts: seq<string>): set<string> {
    set t | t in ts :: TagKeys(t)
  }

  lemma {:induction false} WithoutAbsent(l: seq<string>, v: string)
    requires v !in l
    ensures Store.Without(l, v) == l
    decreases |l|
  {
    if l != [] {
      WithoutAbsent(l[1..], v);
    }
  }

  /** Removing a key from a tag list twice removes it once. */
  lemma WithoutIdempotent(l: seq<string>, v: string)
    ensures Store.Without(Store.Without(l, v), v) == Store.Without(l, v)
  {
    WithoutAbsent(Store.Without(l, v), v);
  }

  /** The entries in the lists of the tags `ts`. */
  function TagsFound(db: Store.Db, ts: seq<string>): set<string> {
    set t, k | t in ts && k in Store.Items(db, TagKeys(t)) :: k
  }

  /** The entries a clean by tags `ts` and, when given, priority `priority` selects. */
  function Found(db: Store.Db, ts: seq<string>, priority: Option<int>): set<string> {
    TagsFound(db, ts) + if priority.Some? then Store.InRange(Store.Scores(db, Journal.PriorityKey()), 0, priority.value) else {}
  }

  lemma TagsFoundAppend(db: Store.Db, ts: seq<string>, t: string)
    ensures TagsFound(db, ts + [t]) == TagsFound(db, ts) + Elems(Store.Items(db, TagKeys(t)))
  {
    forall k | k in TagsFound(db, ts + [t])
      ensures k in TagsFound(db, ts) + Elems(Store.Items(db, TagKeys(t)))
    {
      var u :| u in ts + [t] && k in Store.Items(db, TagKeys(u));
      if u != t {
        assert u in ts;
      }
    }
  }

  /**
   * What cleanEntry leaves behind: the key is out of the lists of the tags it listed, its own
   * tag list and priority key are gone, its score is dropped, nothing else changes.
   */
  ghost predicate EntryCleaned(a: Store.Db, b: Store.Db, key: string) {
    var tags := Store.Items(a, EntryTags(key));
    && (forall t :: t in tags ==> Store.Items(b, TagKeys(t)) == Store.Without(Store.Items(a, TagKeys(t)), key))
    && Store.At(b, EntryTags(key)) == None && Store.At(b, EntryPriority(key)) == None
    && Store.Scores(b, Journal.PriorityKey()) == Store.Scores(a, Journal.PriorityKey()) - {key}
    && Store.SameExcept(a, b, TagLists(tags) + {EntryTags(key), EntryPriority(key), Journal.PriorityKey()})
  }

  /** The state of cleanEntry's loop over the first tags `done` of the entry. */
  ghost predicate Unlisting(a: Store.Db, db: Store.Db, key: string, done: seq<string>) {
    && (forall t :: t in done ==> Store.Items(db, TagKeys(t)) == Store.Without(Store.Items(a, TagKeys(t)), key))
    && Store.SameExcept(a, db, TagLists(done))
  }

  lemma UnlistOneMore(a: Store.Db, before: Store.Db, after: Store.Db, key: string, done: seq<string>, tag: string)
    requires Unlisting(a, before, key, done)
    requires Store.Items(after, TagKeys(tag)) == Store.Without(Store.Items(before, TagKeys(tag)), key)
    requires Store.SameExcept(before, after, {TagKeys(tag)})
    ensures Unlisting(a, after, key, done + [tag])
  {
    Store.SameExceptTrans(a, before, after, TagLists(done), {TagKeys(tag)});
    assert TagLists(done + [tag]) == TagLists(done) + {TagKeys(tag)};
    forall t | t in done + [tag]
      ensures Store.Items(after, TagKeys(t)) == Store.Without(Store.Items(a, TagKeys(t)), key)
    {
      if TagKeys(t) == TagKeys(tag) {
        UnlistSame(a, before, after, key, done, tag);
      } else {
        UnlistOther(a, before, after, key, done, tag, t);
      }
    }
  }

  /** The tag just unlisted: its list loses the key, once even when an earlier tag shared the list. */
  lemma UnlistSame(a: Store.Db, before: Store.Db, after: Store.Db, key: string, done: seq<string>, tag: string)
    requires Unlisting(a, before, key, done)
    requires Store.Items(after, TagKeys(tag)) == Store.Without(Store.Items(before, TagKeys(tag)), key)
    ensures Store.Items(after, TagKeys(tag)) == Store.Without(Store.Items(a, TagKeys(tag)), key)
  {
    if TagKeys(tag) in TagLists(done) {
      var u :| u in done && TagKeys(u) == TagKeys(tag);
      WithoutIdempotent(Store.Items(a, TagKeys(tag)), key);
    }
  }

  /** A tag unlisted earlier keeps its list. */
  lemma UnlistOther(a: Store.Db, before: Store.Db, after: Store.Db, key: string, done: seq<string>, tag: string, t: string)
    requires Unlisting(a, before, key, done) && t in done + [tag] && TagKeys(t) != TagKeys(tag)
    requires Store.SameExcept(before, after, {TagKeys(tag)})
    ensures Store.Items(after, TagKeys(t)) == Store.Without(Store.Items(a, TagKeys(t)), key)
  {
    assert t in done;
    assert Store.At(after, TagKeys(t)) == Store.At(before, TagKeys(t));
  }

  /** Dropping an entry's tag list, priority key and score leaves every tag list as it is. */
  lemma DropKeepsTag(d0: Store.Db, d1: Store.Db, d2: Store.Db, b: Store.Db, key: string, t: string)
    requires Store.SameExcept(d0, d1, {EntryTags(key)})
    requires Store.SameExcept(d1, d2, {EntryPriority(key)})
    requires Store.SameExcept(d2, b, {Journal.PriorityKey()})
    ensures Store.At(b, TagKeys(t)) == Store.At(d0, TagKeys(t))
  {
    NamesDistinct(t, key);
  }

  /** No tag list is an entry's own key or the priority set. */
  lemma TagListsAvoid(tags: seq<string>, key: string)
    ensures EntryTags(key) !in TagLists(tags) && EntryPriority(key) !in TagLists(tags)
    ensures Journal.PriorityKey() !in TagLists(tags)
  {
    forall t | t in tags
      ensures TagKeys(t) != EntryTags(key) && TagKeys(t) != EntryPriority(key) && TagKeys(t) != Journal.PriorityKey()
    {
      NamesDistinct(t, key);
    }
  }

  lemma UnlistThenDrop(a: Store.Db, d0: Store.Db, d1: Store.Db, d2: Store.Db, b: Store.Db, key: string)
    requires Unlisting(a, d0, key, Store.Items(a, EntryTags(key)))
    requires Store.SameExcept(d0, d1, {EntryTags(key)}) && Store.At(d1, EntryTags(key)) == None
    requires Store.SameExcept(d1, d2, {EntryPriority(key)}) && Store.At(d2, EntryPriority(key)) == None
    requires Store.SameExcept(d2, b, {Journal.PriorityKey()})
    requires Store.Scores(b, Journal.PriorityKey()) == Store.Scores(d2, Journal.PriorityKey()) - {key}
    ensures EntryCleaned(a, b, key)
  {
    var tags := Store.Items(a, EntryTags(key));
    NamesDistinct(key, key);
    forall t | t in tags
      ensures Store.Items(b, TagKeys(t)) == Store.Without(Store.Items(a, TagKeys(t)), key)
    {
      DropKeepsTag(d0, d1, d2, b, key, t);
    }
    TagListsAvoid(tags, key);
    DropThree(a, d0, d1, d2, b, key, TagLists(tags));
  }

  /** The three DELs and the ZREM of cleanEntry after the tag loop. */
  lemma DropThree(a: Store.Db, d0: Store.Db, d1: Store.Db, d2: Store.Db, b: Store.Db, key: string, lists: set<string>)
    requires Store.SameExcept(a, d0, lists)
    requires EntryTags(key) !in lists && EntryPriority(key) !in lists && Journal.PriorityKey() !in lists
    requires Store.SameExcept(d0, d1, {EntryTags(key)}) && Store.At(d1, EntryTags(key)) == None
    requires Store.SameExcept(d1, d2, {EntryPriority(key)}) && Store.At(d2, EntryPriority(key)) == None
    requires Store.SameExcept(d2, b, {Journal.PriorityKey()})
    requires Store.Scores(b, Journal.PriorityKey()) == Store.Scores(d2, Journal.PriorityKey()) - {key}
    ensures Store.At(b, EntryTags(key)) == None && Store.At(b, EntryPriority(key)) == None
    ensures Store.Scores(b, Journal.PriorityKey()) == Store.Scores(a, Journal.PriorityKey()) - {key}
    ensures Store.SameExcept(a, b, lists + {EntryTags(key), EntryPriority(key), Journal.PriorityKey()})
  {
    NamesDistinct(key, key);
    Store.SameExceptTrans(a, d0, d1, lists, {EntryTags(key)});
    Store.SameExceptTrans(a, d1, d2, lists + {EntryTags(key)}, {EntryPriority(key)});
    Store.SameExceptTrans(a, d2, b, lists + {EntryTags(key)} + {EntryPriority(key)}, {Journal.PriorityKey()});
    assert lists + {EntryTags(key)} + {EntryPriority(key)} + {Journal.PriorityKey()}
        == lists + {EntryTags(key), EntryPriority(key), Journal.PriorityKey()};
    assert Store.At(d2, Journal.PriorityKey()) == Store.At(a, Journal.PriorityKey());
  }

  /**
   * No entry of `c` has the tag list of `x`: two names that differ only in a NUL where the
   * other has a colon share one.
   */
  ghost predicate Untouched(c: set<string>, x: string) {
    forall y :: y in c ==> EntryTags(y) != EntryTags(x)
  }

  /** The keys clean may change when it cleans `c`: their tags' lists in `db0`, their own two keys, the priority set. */
  function CleanKeys(db0: Store.Db, c: set<string>): set<string> {
    (set x, t | x in c && t in Store.Items(db0, EntryTags(x)) :: TagKeys(t))
    + (set x | x in c :: EntryTags(x)) + (set x | x in c :: EntryPriority(x)) + {Journal.PriorityKey()}
  }

  /**
   * The state of clean after cleaning the entries `c`: tag lists only shrink and lose only
   * cleaned entries, scores are only dropped and only for cleaned entries, every cleaned
   * entry has lost its tag list, priority key and score, every cleaned entry that shares its
   * tag list with no other cleaned entry is out of the lists of the tags it had, and nothing
   * but the keys of the cleaned entries has changed.
   */
  ghost predicate Progress(db0: Store.Db, db: Store.Db, c: set<string>) {
    var pk := Journal.PriorityKey();
    && (forall t :: Elems(Store.Items(db, TagKeys(t))) <= Elems(Store.Items(db0, TagKeys(t))))
    && (forall t :: Elems(Store.Items(db0, TagKeys(t))) - c <= Elems(Store.Items(db, TagKeys(t))))
    && (forall x :: x in Store.Scores(db, pk) ==> x in Store.Scores(db0, pk) && Store.Scores(db, pk)[x] == Store.Scores(db0, pk)[x])
    && (forall x :: x in Store.Scores(db0, pk) && x !in c ==> x in Store.Scores(db, pk))
    && (forall x :: x in c ==> Store.At(db, EntryTags(x)) == None && Store.At(db, EntryPriority(x)) == None)
    && (forall x :: x in c ==> x !in Store.Scores(db, pk))
    && Unlisted(db0, db, c)
  }

  /** The tag side of clean's progress, and its frame. */
  ghost predicate Unlisted(db0: Store.Db, db: Store.Db, c: set<string>) {
    && (forall x :: Untouched(c, x) ==> Store.At(db, EntryTags(x)) == Store.At(db0, EntryTags(x)))
    && (forall x, t :: x in c && Untouched(c - {x}, x) && t in Store.Items(db0, EntryTags(x)) ==> x !in Store.Items(db, TagKeys(t)))
    && Store.SameExcept(db0, db, CleanKeys(db0, c))
  }

  lemma ProgressOneMore(db0: Store.Db, a: Store.Db, b: Store.Db, c: set<string>, key: string)
    requires Progress(db0, a, c) && EntryCleaned(a, b, key)
    ensures Progress(db0, b, c + {key})
  {
    UnlistedOneMore(db0, a, b, c, key);
    forall t
      ensures Elems(Store.Items(b, TagKeys(t))) <= Elems(Store.Items(a, TagKeys(t)))
      ensures Elems(Store.Items(a, TagKeys(t))) - {key} <= Elems(Store.Items(b, TagKeys(t)))
    {
      CleanedTag(a, b, key, t);
    }
    forall x | x in c + {key}
      ensures Store.At(b, EntryTags(x)) == None && Store.At(b, EntryPriority(x)) == None
    {
      if x != key {
        CleanedOther(a, b, key, x);
        CleanedOtherPriority(a, b, key, x);
      }
    }
  }

  lemma UnlistedOneMore(db0: Store.Db, a: Store.Db, b: Store.Db, c: set<string>, key: string)
    requires Progress(db0, a, c) && EntryCleaned(a, b, key)
    ensures Unlisted(db0, b, c + {key})
  {
    forall x | Untouched(c + {key}, x)
      ensures Store.At(b, EntryTags(x)) == Store.At(db0, EntryTags(x))
    {
      UntouchedStays(db0, a, b, c, key, x);
    }
    forall x, t | x in c + {key} && Untouched(c + {key} - {x}, x) && t in Store.Items(db0, EntryTags(x))
      ensures x !in Store.Items(b, TagKeys(t))
    {
      LeftStays(db0, a, b, c, key, x, t);
    }
    CleanKeysGrow(db0, a, b, c, key);
  }

  /** An entry whose tag list no cleaned entry shares keeps it while others are cleaned. */
  lemma UntouchedStays(db0: Store.Db, a: Store.Db, b: Store.Db, c: set<string>, key: string, x: string)
    requires Unlisted(db0, a, c) && EntryCleaned(a, b, key) && Untouched(c + {key}, x)
    ensures Store.At(b, EntryTags(x)) == Store.At(db0, EntryTags(x))
  {
    assert Untouched(c, x);
    assert Store.At(a, EntryTags(x)) == Store.At(db0, EntryTags(x));
    assert EntryTags(key) != EntryTags(x);
    KeepsOtherTags(a, b, key, x);
  }

  /** Cleaning an entry leaves the tag list of an entry that does not share it. */
  lemma KeepsOtherTags(a: Store.Db, b: Store.Db, key: string, x: string)
    requires EntryCleaned(a, b, key) && EntryTags(key) != EntryTags(x)
    ensures Store.At(b, EntryTags(x)) == Store.At(a, EntryTags(x))
  {
    var tags := Store.Items(a, EntryTags(key));
    NamesDistinct(x, key);
    NamesDistinct(x, x);
    if EntryTags(x) in TagLists(tags) {
      var u :| u in tags && TagKeys(u) == EntryTags(x);
      NamesDistinct(u, x);
    }
  }

  /** A cleaned entry out of a tag list stays out; the entry just cleaned leaves the lists of its tags. */
  lemma LeftStays(db0: Store.Db, a: Store.Db, b: Store.Db, c: set<string>, key: string, x: string, t: string)
    requires Progress(db0, a, c) && EntryCleaned(a, b, key)
    requires x in c + {key} && Untouched(c + {key} - {x}, x) && t in Store.Items(db0, EntryTags(x))
    ensures x !in Store.Items(b, TagKeys(t))
  {
    CleanedTag(a, b, key, t);
    if x in c {
      assert Untouched(c - {x}, x);
      assert x !in Store.Items(a, TagKeys(t));
      assert x !in Elems(Store.Items(a, TagKeys(t)));
    } else {
      assert x == key && c + {key} - {x} == c;
      assert Store.At(a, EntryTags(key)) == Store.At(db0, EntryTags(key));
    }
  }

  /** The keys cleaning one more entry changes are among clean's keys for the larger set. */
  lemma CleanKeysGrow(db0: Store.Db, a: Store.Db, b: Store.Db, c: set<string>, key: string)
    requires Unlisted(db0, a, c) && EntryCleaned(a, b, key)
    requires forall x :: x in c ==> Store.At(a, EntryTags(x)) == None
    ensures Store.SameExcept(db0, b, CleanKeys(db0, c + {key}))
  {
    var tags := Store.Items(a, EntryTags(key));
    var own := TagLists(tags) + {EntryTags(key), EntryPriority(key), Journal.PriorityKey()};
    if !Untouched(c, key) {
      var y :| y in c && EntryTags(y) == EntryTags(key);
      assert tags == [];
    }
    CleanKeysMore(db0, c, key, tags);
    Store.SameExceptTrans(db0, a, b, CleanKeys(db0, c), own);
    Store.SameExceptWider(db0, b, CleanKeys(db0, c) + own, CleanKeys(db0, c + {key}));
  }

  lemma CleanKeysMore(db0: Store.Db, c: set<string>, key: string, tags: seq<string>)
    requires tags == [] || tags == Store.Items(db0, EntryTags(key))
    ensures CleanKeys(db0, c) + TagLists(tags) + {EntryTags(key), EntryPriority(key), Journal.PriorityKey()}
            <= CleanKeys(db0, c + {key})
  {
  }

  /** Cleaning an entry only takes that entry out of tag lists. */
  lemma CleanedTag(a: Store.Db, b: Store.Db, key: string, t: string)
    requires EntryCleaned(a, b, key)
    ensures Elems(Store.Items(b, TagKeys(t))) <= Elems(Store.Items(a, TagKeys(t)))
    ensures Elems(Store.Items(a, TagKeys(t))) - {key} <= Elems(Store.Items(b, TagKeys(t)))
  {
    var tags := Store.Items(a, EntryTags(key));
    NamesDistinct(t, key);
    if TagKeys(t) in TagLists(tags) {
      var u :| u in tags && TagKeys(u) == TagKeys(t);
    }
  }

  /** Cleaning an entry does not bring back the tag list of an entry cleaned before. */
  lemma CleanedOther(a: Store.Db, b: Store.Db, key: string, x: string)
    requires EntryCleaned(a, b, key) && Store.At(a, EntryTags(x)) == None
    ensures Store.At(b, EntryTags(x)) == None
  {
    var tags := Store.Items(a, EntryTags(key));
    NamesDistinct(x, key);
    NamesDistinct(key, x);
    if EntryTags(x) in TagLists(tags) {
      var u :| u in tags && TagKeys(u) == EntryTags(x);
      NamesDistinct(u, x);
    }
  }

  /** Cleaning an entry does not bring back the priority key of an entry cleaned before. */
  lemma CleanedOtherPriority(a: Store.Db, b: Store.Db, key: string, x: string)
    requires EntryCleaned(a, b, key) && Store.At(a, EntryPriority(x)) == None
    ensures Store.At(b, EntryPriority(x)) == None
  {
    var tags := Store.Items(a, EntryTags(key));
    NamesDistinct(x, key);
    NamesDistinct(key, x);
    NamesDistinct(x, x);
    if EntryPriority(x) in TagLists(tags) {
      var u :| u in tags && TagKeys(u) == EntryPriority(x);
      NamesDistinct(u, x);
    }
  }

  /**
   * What clean leaves behind for the cleaned entries `c`: each has lost its tag list, priority
   * key and score, and, unless another cleaned entry shares its tag list, has left the list of
   * every tag it had; tag lists only lose cleaned entries; nothing but their keys changes.
   */
  ghost predicate Cleaned(db0: Store.Db, db: Store.Db, c: set<string>) {
    IndexCleaned(db0, db, c) && Store.SameExcept(db0, db, CleanKeys(db0, c))
  }

  /** The part of Cleaned about the journal's own lists, keys and scores. */
  ghost predicate IndexCleaned(db0: Store.Db, db: Store.Db, c: set<string>) {
    && (forall x :: x in c ==>
          (Store.At(db, EntryTags(x)) == None && Store.At(db, EntryPriority(x)) == None
           && x !in Store.Scores(db, Journal.PriorityKey())))
    && (forall x, t :: x in c && Untouched(c - {x}, x) && t in Store.Items(db0, EntryTags(x)) ==>
          (x !in Store.Items(db, TagKeys(t))))
    && (forall t :: Elems(Store.Items(db0, TagKeys(t))) - c <= Elems(Store.Items(db, TagKeys(t))))
    && (forall t :: Elems(Store.Items(db, TagKeys(t))) <= Elems(Store.Items(db0, TagKeys(t))))
  }

  /** The keys clean may change all lie in the journal namespace. */
  lemma CleanKeysInside(db0: Store.Db, c: set<string>)
    ensures forall x :: x in CleanKeys(db0, c) ==> !Journal.Outside(x)
  {
    forall x | x in (set x, t | x in c && t in Store.Items(db0, EntryTags(x)) :: TagKeys(t))
      ensures !Journal.Outside(x)
    {
      var y, t :| y in c && t in Store.Items(db0, EntryTags(y)) && x == TagKeys(t);
      Journal.KeysDistinct(Mangle(t), Mangle(t));
    }
    forall y | y in c
      ensures !Journal.Outside(EntryTags(y)) && !Journal.Outside(EntryPriority(y))
    {
      Journal.KeysDistinct(Mangle(y), Mangle(y));
    }
    Journal.KeysDistinct("", "");
  }

  /** What clean leaves in the index survives any change outside the journal namespace. */
  lemma IndexCleanedStays(db0: Store.Db, db: Store.Db, d: Store.Db, c: set<string>)
    requires IndexCleaned(db0, db, c)
    requires forall x :: !Journal.Outside(x) ==> Store.At(d, x) == Store.At(db, x)
    ensures IndexCleaned(db0, d, c)
  {
    forall x | x in c
      ensures Store.At(d, EntryTags(x)) == Store.At(db, EntryTags(x)) && Store.At(d, EntryPriority(x)) == Store.At(db, EntryPriority(x))
    {
      Journal.KeysDistinct(Mangle(x), Mangle(x));
    }
    forall t
      ensures Store.Items(d, TagKeys(t)) == Store.Items(db, TagKeys(t))
    {
      Journal.KeysDistinct(Mangle(t), Mangle(t));
    }
    Journal.KeysDistinct("", "");
  }

  lemma ProgressCleaned(db0: Store.Db, db: Store.Db, c: set<string>)
    requires Progress(db0, db, c)
    ensures Cleaned(db0, db, c)
  {
  }

  /**
   * An entry written and then selected by a clean leaves the list of every tag it was written
   * with, unless another selected entry shares its tag list.
   */
  lemma WrittenThenClean(db0: Store.Db, db: Store.Db, key: string, dp: Journal.Deps, c: set<string>)
    requires Written(db0, key, dp) && Cleaned(db0, db, c)
    requires key in c && Untouched(c - {key}, key)
    ensures forall t :: t in Journal.TagList(dp.tags) ==> key !in Store.Items(db, TagKeys(t))
    ensures key !in Store.Scores(db, Journal.PriorityKey())
  {
    forall t | t in Journal.TagList(dp.tags)
      ensures key !in Store.Items(db, TagKeys(t))
    {
      assert t in Store.Items(db0, EntryTags(key));
    }
  }

  /** Reading a tag's list part-way through clean adds to the selection what the original list holds. */
  lemma TagStep(db0: Store.Db, db: Store.Db, c: set<string>, tags: seq<string>, i: nat, found: seq<string>)
    requires i < |tags| && Progress(db0, db, c) && c == TagsFound(db0, tags[..i])
    requires found == Store.Items(db, TagKeys(tags[i]))
    ensures c + Elems(found) == TagsFound(db0, tags[..i + 1])
  {
    assert tags[..i + 1] == tags[..i] + [tags[i]];
    TagsFoundAppend(db0, tags[..i], tags[i]);
    assert Elems(Store.Items(db0, TagKeys(tags[i]))) - c <= Elems(found) <= Elems(Store.Items(db0, TagKeys(tags[i])));
  }

  /** The entries cleaned so far, one more. */
  lemma ProgressSnoc(db0: Store.Db, db: Store.Db, c: set<string>, found: seq<string>, j: nat)
    requires j < |found| && Progress(db0, db, c + Elems(found[..j]) + {found[j]})
    ensures Progress(db0, db, c + Elems(found[..j + 1]))
  {
    ElemsSnoc(found, j);
    assert c + Elems(found[..j]) + {found[j]} == c + Elems(found[..j + 1]);
  }

  /** Reading the priorities part-way through clean adds to the selection what the original range holds. */
  lemma PriorityStep(db0: Store.Db, db: Store.Db, c: set<string>, lo: int, hi: int)
    requires Progress(db0, db, c)
    ensures c + Store.InRange(Store.Scores(db, Journal.PriorityKey()), lo, hi)
         == c + Store.InRange(Store.Scores(db0, Journal.PriorityKey()), lo, hi)
  {
  }

  /**
   * What write leaves behind: the entry's tag list holds each of its tags once, in order, the
   * key is in the list of each tag, it has a score exactly when a priority is given, and its
   * priority key is absent.
   */
  ghost predicate Written(db: Store.Db, key: string, dp: Journal.Deps) {
    && Store.Items(db, EntryTags(key)) == Dedup(Journal.TagList(dp.tags))
    && (forall t :: t in Journal.TagList(dp.tags) ==> key in Store.Items(db, TagKeys(t)))
    && (key in Store.Scores(db, Journal.PriorityKey()) <==> dp.priority.Some?)
    && (dp.priority.Some? ==> Store.Scores(db, Journal.PriorityKey())[key] == dp.priority.value)
    && Store.At(db, EntryPriority(key)) == None
  }

  /**
   * What write leaves alone: only the lists of the entry's old and new tags, its own two keys
   * and the priority set change; every tag list keeps its other entries, in order; every other
   * entry keeps its score.
   */
  ghost predicate WriteFrame(a: Store.Db, b: Store.Db, key: string, dp: Journal.Deps) {
    Store.SameExcept(a, b, WrittenKeys(a, key, dp)) && OthersKept(a, b, key)
  }

  /** The keys write may change: the lists of the entry's old and new tags, its own two keys and the priority set. */
  function WrittenKeys(a: Store.Db, key: string, dp: Journal.Deps): (r: set<string>)
    ensures forall x :: x in r ==> !Journal.Outside(x)
  {
    NamesDistinct(key, key);
    TagListsInside(Store.Items(a, EntryTags(key)));
    TagListsInside(Journal.TagList(dp.tags));
    TagLists(Store.Items(a, EntryTags(key))) + TagLists(Journal.TagList(dp.tags))
      + {EntryTags(key), EntryPriority(key), Journal.PriorityKey()}
  }

  lemma TagListsInside(ts: seq<string>)
    ensures forall x :: x in TagLists(ts) ==> !Journal.Outside(x)
  {
    forall x | x in TagLists(ts)
      ensures !Journal.Outside(x)
    {
      var t :| t in ts && x == TagKeys(t);
      Journal.KeysDistinct(Mangle(t), Mangle(t));
    }
  }

  /** Every tag list keeps its other entries, in order, and every other entry keeps its score. */
  ghost predicate OthersKept(a: Store.Db, b: Store.Db, key: string) {
    var pk := Journal.PriorityKey();
    && (forall t :: Store.Without(Store.Items(b, TagKeys(t)), key) == Store.Without(Store.Items(a, TagKeys(t)), key))
    && Store.Scores(b, pk) - {key} == Store.Scores(a, pk) - {key}
  }

  /** What write records, and what it keeps of the other entries, survive any change outside the journal namespace. */
  lemma RecordStays(a: Store.Db, b: Store.Db, c: Store.Db, key: string, dp: Journal.Deps)
    requires Written(b, key, dp) && OthersKept(a, b, key)
    requires forall x :: !Journal.Outside(x) ==> Store.At(c, x) == Store.At(b, x)
    ensures Written(c, key, dp) && OthersKept(a, c, key)
  {
    Journal.KeysDistinct(Mangle(key), Mangle(key));
    forall t
      ensures Store.Items(c, TagKeys(t)) == Store.Items(b, TagKeys(t))
    {
      Journal.KeysDistinct(Mangle(t), Mangle(t));
    }
  }

  /** cleanEntry leaves every tag list's other entries, in order. */
  lemma CleanedKeepsOthers(a: Store.Db, b: Store.Db, key: string, t: string)
    requires EntryCleaned(a, b, key)
    ensures Store.Without(Store.Items(b, TagKeys(t)), key) == Store.Without(Store.Items(a, TagKeys(t)), key)
  {
    var tags := Store.Items(a, EntryTags(key));
    NamesDistinct(t, key);
    if TagKeys(t) in TagLists(tags) {
      var u :| u in tags && TagKeys(u) == TagKeys(t);
      WithoutIdempotent(Store.Items(a, TagKeys(t)), key);
    }
  }

  /** The state of write's appends after cleanEntry left `d`, once the tags `done` are recorded. */
  ghost predicate Appended(d: Store.Db, db: Store.Db, key: string, done: seq<string>) {
    && Store.SameExcept(d, db, TagLists(done) + {EntryTags(key)})
    && (forall t :: Store.Without(Store.Items(db, TagKeys(t)), key) == Store.Without(Store.Items(d, TagKeys(t)), key))
  }

  lemma AppendOneMore(d: Store.Db, before: Store.Db, mid: Store.Db, after: Store.Db, key: string, done: seq<string>, tag: string)
    requires Appended(d, before, key, done)
    requires Store.Items(mid, TagKeys(tag)) == Store.Items(before, TagKeys(tag)) + [key]
    requires Store.SameExcept(before, mid, {TagKeys(tag)})
    requires Store.SameExcept(mid, after, {EntryTags(key)})
    ensures Appended(d, after, key, done + [tag])
  {
    TagListsSnoc(done, tag);
    forall t
      ensures Store.Without(Store.Items(after, TagKeys(t)), key) == Store.Without(Store.Items(d, TagKeys(t)), key)
    {
      AppendKeepsOthers(before, mid, after, key, tag, t);
    }
  }

  lemma TagListsSnoc(done: seq<string>, tag: string)
    ensures TagLists(done + [tag]) == TagLists(done) + {TagKeys(tag)}
  {
  }

  /** One round of write's appends leaves every tag list's other entries, in order. */
  lemma AppendKeepsOthers(before: Store.Db, mid: Store.Db, after: Store.Db, key: string, tag: string, t: string)
    requires Store.Items(mid, TagKeys(tag)) == Store.Items(before, TagKeys(tag)) + [key]
    requires Store.SameExcept(before, mid, {TagKeys(tag)})
    requires Store.SameExcept(mid, after, {EntryTags(key)})
    ensures Store.Without(Store.Items(after, TagKeys(t)), key) == Store.Without(Store.Items(before, TagKeys(t)), key)
  {
    NamesDistinct(t, key);
    assert Store.At(after, TagKeys(t)) == Store.At(mid, TagKeys(t));
    if TagKeys(t) == TagKeys(tag) {
      WithoutSnoc(Store.Items(before, TagKeys(t)), key);
    } else {
      assert Store.At(mid, TagKeys(t)) == Store.At(before, TagKeys(t));
    }
  }

  /** cleanEntry, the appends and the ZADD together keep to write's frame. */
  lemma WriteFrameHolds(a: Store.Db, d: Store.Db, listed: Store.Db, b: Store.Db, key: string, dp: Journal.Deps)
    requires EntryCleaned(a, d, key)
    requires Appended(d, listed, key, Dedup(Journal.TagList(dp.tags)))
    requires dp.priority.None? ==> b == listed
    requires dp.priority.Some? ==> b == Store.ZAdd(listed, Journal.PriorityKey(), dp.priority.value, key)
    ensures WriteFrame(a, b, key, dp)
  {
    var pk := Journal.PriorityKey();
    var news := TagLists(Dedup(Journal.TagList(dp.tags)));
    assert news == TagLists(Journal.TagList(dp.tags));
    WriteKeys(a, d, listed, b, key, news);
    TagListsAvoid(Dedup(Journal.TagList(dp.tags)), key);
    NamesDistinct(key, key);
    assert Store.At(listed, pk) == Store.At(d, pk);
    Journal.OtherScores(Store.Scores(a, pk), Store.Scores(listed, pk), Store.Scores(b, pk), key, dp.priority);
    WriteKeepsOthers(a, d, listed, b, key);
  }

  /** Every tag list keeps its other entries, in order, through write. */
  lemma WriteKeepsOthers(a: Store.Db, d: Store.Db, listed: Store.Db, b: Store.Db, key: string)
    requires EntryCleaned(a, d, key)
    requires forall t :: Store.Without(Store.Items(listed, TagKeys(t)), key) == Store.Without(Store.Items(d, TagKeys(t)), key)
    requires Store.SameExcept(listed, b, {Journal.PriorityKey()})
    ensures forall t :: Store.Without(Store.Items(b, TagKeys(t)), key) == Store.Without(Store.Items(a, TagKeys(t)), key)
  {
    forall t
      ensures Store.Without(Store.Items(b, TagKeys(t)), key) == Store.Without(Store.Items(a, TagKeys(t)), key)
    {
      NamesDistinct(t, key);
      assert Store.At(b, TagKeys(t)) == Store.At(listed, TagKeys(t));
      CleanedKeepsOthers(a, d, key, t);
    }
  }

  /** The keys cleanEntry, the appends and the ZADD touch, together. */
  lemma WriteKeys(a: Store.Db, d: Store.Db, listed: Store.Db, b: Store.Db, key: string, news: set<string>)
    requires EntryCleaned(a, d, key)
    requires Store.SameExcept(d, listed, news + {EntryTags(key)})
    requires Store.SameExcept(listed, b, {Journal.PriorityKey()})
    ensures Store.SameExcept(a, b, TagLists(Store.Items(a, EntryTags(key))) + news
                                   + {EntryTags(key), EntryPriority(key), Journal.PriorityKey()})
  {
  }

  /** The state of write's loop once the tags `done` are recorded. */
  ghost predicate Listed(db: Store.Db, key: string, done: seq<string>) {
    && Store.Items(db, EntryTags(key)) == done
    && (forall t :: t in done ==> key in Store.Items(db, TagKeys(t)))
    && key !in Store.Scores(db, Journal.PriorityKey())
    && Store.At(db, EntryPriority(key)) == None
  }

  lemma ListedSlice(db: Store.Db, key: string, tags: seq<string>, i: nat)
    requires i < |tags| && Listed(db, key, tags[..i] + [tags[i]])
    ensures Listed(db, key, tags[..i + 1])
  {
    assert tags[..i + 1] == tags[..i] + [tags[i]];
  }

  lemma ListOneMore(before: Store.Db, mid: Store.Db, after: Store.Db, key: string, done: seq<string>, tag: string)
    requires Listed(before, key, done)
    requires Store.Items(mid, TagKeys(tag)) == Store.Items(before, TagKeys(tag)) + [key]
    requires Store.SameExcept(before, mid, {TagKeys(tag)})
    requires Store.Items(after, EntryTags(key)) == Store.Items(mid, EntryTags(key)) + [tag]
    requires Store.SameExcept(mid, after, {EntryTags(key)})
    ensures Listed(after, key, done + [tag])
  {
    var pk := Journal.PriorityKey();
    NamesDistinct(tag, key);
    NamesDistinct(key, key);
    assert Store.At(mid, EntryTags(key)) == Store.At(before, EntryTags(key));
    assert Store.At(after, pk) == Store.At(mid, pk) == Store.At(before, pk);
    assert Store.At(after, EntryPriority(key)) == Store.At(mid, EntryPriority(key)) == Store.At(before, EntryPriority(key));
    forall t | t in done + [tag]
      ensures key in Store.Items(after, TagKeys(t))
    {
      NamesDistinct(t, key);
      assert Store.At(after, TagKeys(t)) == Store.At(mid, TagKeys(t));
      if TagKeys(t) != TagKeys(tag) {
        assert t in done;
        assert Store.At(mid, TagKeys(t)) == Store.At(before, TagKeys(t));
      }
    }
  }

  lemma ListedThenScored(listed: Store.Db, db: Store.Db, key: string, dp: Journal.Deps)
    requires Listed(listed, key, Dedup(Journal.TagList(dp.tags)))
    requires dp.priority.None? ==> db == listed
    requires dp.priority.Some? ==> db == Store.ZAdd(listed, Journal.PriorityKey(), dp.priority.value, key)
    ensures Written(db, key, dp)
  {
    if dp.priority.Some? {
      ScoreKeeps(listed, key, dp.priority.value);
    }
    ListedWritten(listed, db, key, dp);
  }

  /** The ZADD of write touches the priority set only. */
  lemma ScoreKeeps(db: Store.Db, key: string, p: int)
    ensures var db' := Store.ZAdd(db, Journal.PriorityKey(), p, key);
      && (forall t :: Store.At(db', TagKeys(t)) == Store.At(db, TagKeys(t)))
      && Store.At(db', EntryTags(key)) == Store.At(db, EntryTags(key))
      && Store.At(db', EntryPriority(key)) == Store.At(db, EntryPriority(key))
  {
    NamesDistinct(key, key);
    forall t
      ensures Store.At(Store.ZAdd(db, Journal.PriorityKey(), p, key), TagKeys(t)) == Store.At(db, TagKeys(t))
    {
      NamesDistinct(t, key);
    }
  }

  lemma ListedWritten(listed: Store.Db, db: Store.Db, key: string, dp: Journal.Deps)
    requires Listed(listed, key, Dedup(Journal.TagList(dp.tags)))
    requires forall t :: Store.At(db, TagKeys(t)) == Store.At(listed, TagKeys(t))
    requires Store.At(db, EntryTags(key)) == Store.At(listed, EntryTags(key))
    requires Store.At(db, EntryPriority(key)) == Store.At(listed, EntryPriority(key))
    requires Store.Scores(db, Journal.PriorityKey()) ==
               if dp.priority.Some? then Store.Scores(listed, Journal.PriorityKey())[key := dp.priority.value]
               else Store.Scores(listed, Journal.PriorityKey())
    ensures Written(db, key, dp)
  {
    forall t | t in Journal.TagList(dp.tags)
      ensures key in Store.Items(db, TagKeys(t))
    {
      assert t in Dedup(Journal.TagList(dp.tags));
    }
  }

  /** A clean by any tag an entry was written with selects that entry. */
  lemma WrittenTagSelects(db: Store.Db, key: string, dp: Journal.Deps, t: string)
    requires Written(db, key, dp) && t in Journal.TagList(dp.tags)
    ensures key in Found(db, [t], None)
  {
    assert t in [t];
  }

  /** A clean by priority selects a written entry exactly when its priority is in `[0, limit]`. */
  lemma WrittenPrioritySelects(db: Store.Db, key: string, dp: Journal.Deps, limit: int)
    requires Written(db, key, dp) && dp.priority.Some?
    ensures key in Found(db, [], Some(limit)) <==> 0 <= dp.priority.value <= limit
  {
    assert TagsFound(db, []) == {};
  }

  /** Cleaning a written entry takes it out of the list of every tag it was written with. */
  lemma WrittenThenCleaned(a: Store.Db, b: Store.Db, key: string, dp: Journal.Deps)
    requires Written(a, key, dp) && EntryCleaned(a, b, key)
    ensures forall t :: t in Journal.TagList(dp.tags) ==> key !in Store.Items(b, TagKeys(t))
    ensures key !in Store.Scores(b, Journal.PriorityKey())
  {
    forall t | t in Journal.TagList(dp.tags)
      ensures key !in Store.Items(b, TagKeys(t))
    {
      assert t in Store.Items(a, EntryTags(key));
    }
  }

  class RedisJournal {
    const client: Server.Redis

    constructor (client: Server.Redis)
      ensures this.client == client
    {
      this.client := client;
    }

    /** entryTags */
    method EntryTagsOf(key: string) returns (tags: seq<string>)
      ensures tags == Store.Items(client.db, EntryTags(key))
    {
      tags := client.LRange(EntryTags(key));
    }

    /** tagEntries */
    method TagEntries(tag: string) returns (keys: seq<string>)
      ensures keys == Store.Items(client.db, TagKeys(tag))
    {
      keys := client.LRange(TagKeys(tag));
    }

    /** priorityEntries: the keys with a priority in `[0, priority]`. */
    method PriorityEntries(priority: int) returns (keys: seq<string>)
      ensures Elems(keys) == Store.InRange(Store.Scores(client.db, Journal.PriorityKey()), 0, priority) && NoDup(keys)
    {
      keys := client.ZRangeByScore(Journal.PriorityKey(), 0, priority);
    }

    /** The tag loop of cleanEntry: `key` removed from the list of each tag in `tags`. */
    method Unlist(key: string, tags: seq<string>)
      modifies client
      ensures Unlisting(old(client.db), client.db, key, tags)
    {
      ghost var a := client.db;
      var i := 0;
      while i < |tags|
        invariant 0 <= i <= |tags|
        invariant Unlisting(a, client.db, key, tags[..i])
      {
        ghost var before := client.db;
        client.LRem(TagKeys(tags[i]), key);
        UnlistOneMore(a, before, client.db, key, tags[..i], tags[i]);
        PrefixSnoc(tags, i);
        i := i + 1;
      }
      assert tags[..i] == tags;
    }

    /** cleanEntry: LREM of the key from each of its tags' lists, then DEL, DEL and ZREM. */
    method CleanEntry(key: string)
      modifies client
      ensures EntryCleaned(old(client.db), client.db, key)
    {
      ghost var a := client.db;
      var tags := EntryTagsOf(key);
      Unlist(key, tags);
      ghost var d0 := client.db;
      client.Del([EntryTags(key)]);
      assert Elems([EntryTags(key)]) == {EntryTags(key)};
      ghost var d1 := client.db;
      client.Del([EntryPriority(key)]);
      assert Elems([EntryPriority(key)]) == {EntryPriority(key)};
      ghost var d2 := client.db;
      client.ZRem(Journal.PriorityKey(), key);
      UnlistThenDrop(a, d0, d1, d2, client.db, key);
    }

    /**
     * write: cleans the entry, then appends the key to the list of each distinct tag and the
     * tag to the key's list, and records the priority when one is given.
     */
    method Write(key: string, dp: Journal.Deps)
      modifies client
      ensures Written(client.db, key, dp)
      ensures WriteFrame(old(client.db), client.db, key, dp)
    {
      ghost var a := client.db;
      CleanEntry(key);
      ghost var d := client.db;
      NamesDistinct(key, key);
      var tags := Dedup(Journal.TagList(dp.tags));
      var i := 0;
      while i < |tags|
        invariant 0 <= i <= |tags|
        invariant Listed(client.db, key, tags[..i])
        invariant Appended(d, client.db, key, tags[..i])
      {
        ghost var before := client.db;
        client.RPush(TagKeys(tags[i]), key);
        ghost var mid := client.db;
        client.RPush(EntryTags(key), tags[i]);
        ListOneMore(before, mid, client.db, key, tags[..i], tags[i]);
        AppendOneMore(d, before, mid, client.db, key, tags[..i], tags[i]);
        ListedSlice(client.db, key, tags, i);
        assert tags[..i + 1] == tags[..i] + [tags[i]];
        i := i + 1;
      }
      assert tags[..i] == tags;
      ghost var listed := client.db;
      if dp.priority.Some? {
        client.ZAdd(Journal.PriorityKey(), dp.priority.value, key);
      }
      ListedThenScored(listed, client.db, key, dp);
      WriteFrameHolds(a, d, listed, client.db, key, dp);
    }

    /** The `Cache::ALL` branch of clean: every journal key is deleted, one DEL per key. */
    method CleanAll()
      modifies client
      ensures forall x :: Journal.Prefix <= x ==> Store.At(client.db, x) == None
      ensures forall x :: !(Journal.Prefix <= x) ==> Store.At(client.db, x) == Store.At(old(client.db), x)
    {
      ghost var db0 := client.db;
      var all := client.Keys(Journal.Prefix);
      var i := 0;
      while i < |all|
        invariant 0 <= i <= |all|
        invariant Store.SameExcept(db0, client.db, Elems(all[..i]))
        invariant forall x :: x in all[..i] ==> Store.At(client.db, x) == None
      {
        ghost var before := client.db;
        client.Del([all[i]]);
        assert Elems([all[i]]) == {all[i]};
        Store.SameExceptTrans(db0, before, client.db, Elems(all[..i]), {all[i]});
        assert all[..i + 1] == all[..i] + [all[i]];
        i := i + 1;
      }
      assert all[..i] == all;
    }

    /** Cleans each of the entries `found`, one after the other. */
    method CleanEntries(found: seq<string>, ghost db0: Store.Db, ghost c: set<string>)
      requires Progress(db0, client.db, c)
      modifies client
      ensures Progress(db0, client.db, c + Elems(found))
    {
      var j := 0;
      assert c + Elems(found[..0]) == c by {
        assert found[..0] == [];
      }
      while j < |found|
        invariant 0 <= j <= |found|
        invariant Progress(db0, client.db, c + Elems(found[..j]))
      {
        ghost var before := client.db;
        CleanEntry(found[j]);
        ProgressOneMore(db0, before, client.db, c + Elems(found[..j]), found[j]);
        ProgressSnoc(db0, client.db, c, found, j);
        j := j + 1;
      }
      assert found[..j] == found;
    }

    /**
     * clean. With `Cache::ALL` every journal key is deleted and the result is null; otherwise
     * each entry of each given tag, and then each entry up to the given priority, is cleaned,
     * and the distinct entries are returned.
     */
    method Clean(conds: Journal.Conds) returns (r: Option<seq<string>>)
      modifies client
      ensures conds.all ==> r == None
      ensures conds.all ==> forall x :: Journal.Prefix <= x ==> Store.At(client.db, x) == None
      ensures conds.all ==> forall x :: !(Journal.Prefix <= x) ==> Store.At(client.db, x) == Store.At(old(client.db), x)
      ensures !conds.all ==> r.Some? && NoDup(r.value)
      ensures !conds.all ==> Elems(r.value) == Found(old(client.db), Journal.TagList(conds.tags), conds.priority)
      ensures !conds.all ==> Cleaned(old(client.db), client.db, Elems(r.value))
    {
      if conds.all {
        CleanAll();
        return None;
      }
      ghost var db0 := client.db;
      var entries := CleanSelected(Journal.TagList(conds.tags), conds.priority);
      ProgressCleaned(db0, client.db, Elems(entries));
      return Some(Dedup(entries));
    }

    /** The selective branch of clean: the entries of each tag, then those up to the priority. */
    method CleanSelected(tags: seq<string>, priority: Option<int>) returns (entries: seq<string>)
      modifies client
      ensures Elems(entries) == Found(old(client.db), tags, priority)
      ensures Progress(old(client.db), client.db, Elems(entries))
    {
      ghost var db0 := client.db;
      entries := [];
      var i := 0;
      while i < |tags|
        invariant 0 <= i <= |tags|
        invariant Elems(entries) == TagsFound(db0, tags[..i])
        invariant Progress(db0, client.db, Elems(entries))
      {
        var found := TagEntries(tags[i]);
        TagStep(db0, client.db, Elems(entries), tags, i, found);
        CleanEntries(found, db0, Elems(entries));
        ElemsAppend(entries, found);
        entries := entries + found;
        i := i + 1;
      }
      assert tags[..i] == tags;
      if priority.Some? {
        var found := PriorityEntries(priority.value);
        PriorityStep(db0, client.db, Elems(entries), 0, priority.value);
        CleanEntries(found, db0, Elems(entries));
        ElemsAppend(entries, found);
        entries := entries + found;
      }
    }
  }
}
