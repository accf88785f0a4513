/** The user and video tables of `lambda-func/dynamodb_handler.py`, with each
    DynamoDB table abstracted as a map from key to item. An item is a list of
    (attribute name, value) pairs, so the attribute order the Python dicts
    keep is kept too. Every operation is a state transition on `Db`. */
module Store {
  import opened Wrappers
  import opened Text

  /** A typed DynamoDB attribute value: `{'S': ..}`, `{'N': ..}`, `{'L': [..]}`. */
  datatype AttrValue = S(s: string) | N(n: string) | L(items: seq<AttrValue>)

  /** An item: attribute names with their values, in order. */
  type Item<V> = seq<(string, V)>

  /** A users-table item. */
  type UserItem = Item<AttrValue>

  /** A videos-table item. Only string attributes are ever written to that
      table, so its values are plain strings. */
  type VideoRecord = Item<string>

  datatype Db = Db(users: map<int, UserItem>, videos: map<string, VideoRecord>)

  /** The exceptions the Python code would raise, by cause. */
  datatype StoreError =
    | NoItem                 // `resp['Item']` on a key the table does not hold
    | UpdateResponseNotList  // the `update_item` response used as if it were the list
    | NotOfType(attr: string) // `value['L']` / `value['S']` on a value of another type
    | VideoMissing(videoId: string)

  /** An operation's new state, and the exception it ended with, if any. */
  datatype Effect = Effect(db: Db, error: Option<StoreError>)

  const UserKey: string := "chat_id"
  const VideoKey: string := "video_id"
  const Videos: string := "videos"
  const Notes: string := "notes"
  const OpenAiKey: string := "openai_key"
  const Username: string := "username"

  predicate HasName<V>(item: Item<V>, name: string) {
    exists i :: 0 <= i < |item| && item[i].0 == name
  }

  /** No attribute name appears twice. */
  predicate DistinctNames<V>(item: Item<V>) {
    forall i, j :: 0 <= i < j < |item| ==> item[i].0 != item[j].0
  }

  /** The value of an attribute, if the item has it. */
  function Get<V>(item: Item<V>, name: string): (r: Option<V>)
    ensures r.None? <==> !HasName(item, name)
    ensures r.Some? ==> exists i :: 0 <= i < |item| && item[i] == (name, r.value)
  {
    if |item| == 0 then None
    else if item[0].0 == name then Some(item[0].1)
    else
      var r := Get(item[1..], name);
      assert forall i :: 0 < i < |item| ==> item[i] == item[1..][i - 1];
      r
  }

  /** `SET name = value`: replaces the attribute in place, or appends it. */
  function Put<V>(item: Item<V>, name: string, value: V): Item<V>
  {
    if |item| == 0 then [(name, value)]
    else if item[0].0 == name then [(name, value)] + item[1..]
    else [item[0]] + Put(item[1..], name, value)
  }

  /** Reading back a written attribute gives the written value; every other
      attribute keeps its value. */
  lemma {:induction false} GetPut<V>(item: Item<V>, name: string, value: V, other: string)
    ensures Get(Put(item, name, value), name) == Some(value)
    ensures other != name ==> Get(Put(item, name, value), other) == Get(item, other)
    decreases |item|
  {
    if |item| > 0 && item[0].0 != name {
      GetPut(item[1..], name, value, other);
      var p := Put(item, name, value);
      assert p[1..] == Put(item[1..], name, value);
    }
  }

  /** A write keeps attribute names distinct and keeps the order of the
      attributes already present; a new attribute goes last. */
  lemma PutShape<V>(item: Item<V>, name: string, value: V)
    requires DistinctNames(item)
    ensures DistinctNames(Put(item, name, value))
    ensures HasName(item, name) ==> |Put(item, name, value)| == |item|
    ensures !HasName(item, name) ==> Put(item, name, value) == item + [(name, value)]
    ensures forall i :: 0 <= i < |item| ==> Put(item, name, value)[i].0 == item[i].0
  {
    PutNames(item, name, value);
    var p := Put(item, name, value);
    forall i, j | 0 <= i < j < |p| ensures p[i].0 != p[j].0 {
      if j >= |item| {
        assert !HasName(item, name) && p[j].0 == name && p[i].0 == item[i].0;
      }
    }
  }

  /** The names of a written item, position by position. */
  lemma {:induction false} PutNames<V>(item: Item<V>, name: string, value: V)
    ensures HasName(item, name) ==> |Put(item, name, value)| == |item|
    ensures !HasName(item, name) ==> Put(item, name, value) == item + [(name, value)]
    ensures forall i :: 0 <= i < |Put(item, name, value)| ==>
      Put(item, name, value)[i].0 == if i < |item| then item[i].0 else name
    decreases |item|
  {
    var p := Put(item, name, value);
    if |item| > 0 && item[0].0 != name {
      var tail := item[1..];
      PutNames(tail, name, value);
      HasNameTail(item, name);
      var q := Put(tail, name, value);
      assert p == [item[0]] + q;
      forall i | 0 < i < |p| ensures p[i].0 == if i < |item| then item[i].0 else name {
        assert p[i] == q[i - 1];
      }
      if !HasName(item, name) {
        assert p == [item[0]] + (tail + [(name, value)]);
        assert item == [item[0]] + tail;
      }
    } else if |item| > 0 {
      assert HasName(item, name);
      forall i | 0 < i < |p| ensures p[i].0 == item[i].0 {
        assert p[i] == item[i];
      }
    }
  }

  /** Past a first attribute of another name, the name is in the item
      exactly when it is in the rest. */
  lemma HasNameTail<V>(item: Item<V>, name: string)
    requires |item| > 0 && item[0].0 != name
    ensures HasName(item, name) <==> HasName(item[1..], name)
  {
    var tail := item[1..];
    if HasName(item, name) {
      var k :| 0 <= k < |item| && item[k].0 == name;
      assert tail[k - 1] == item[k];
    }
    if HasName(tail, name) {
      var k :| 0 <= k < |tail| && tail[k].0 == name;
      assert item[k + 1] == tail[k];
    }
  }

  /** Writes each pair in turn, as the `for key, value in kwargs.items()` loops do. */
  function PutAll<V>(item: Item<V>, attrs: Item<V>): Item<V>
    decreases |attrs|
  {
    if |attrs| == 0 then item else PutAll(Put(item, attrs[0].0, attrs[0].1), attrs[1..])
  }

  /** After writing distinct attributes, each holds its written value and
      every attribute not written keeps its value. */
  lemma {:induction false} GetPutAll<V>(item: Item<V>, attrs: Item<V>, name: string)
    requires DistinctNames(attrs)
    ensures forall i :: 0 <= i < |attrs| ==> Get(PutAll(item, attrs), attrs[i].0) == Some(attrs[i].1)
    ensures !HasName(attrs, name) ==> Get(PutAll(item, attrs), name) == Get(item, name)
    decreases |attrs|
  {
    if |attrs| > 0 {
      var (n0, v0) := attrs[0];
      var item1 := Put(item, n0, v0);
      var rest := attrs[1..];
      assert DistinctNames(rest) by {
        forall i, j | 0 <= i < j < |rest| ensures rest[i].0 != rest[j].0 {
          assert rest[i] == attrs[i + 1] && rest[j] == attrs[j + 1];
        }
      }
      GetPutAll(item1, rest, name);
      GetPutAll(item1, rest, n0);
      assert !HasName(rest, n0) by {
        forall i | 0 <= i < |rest| ensures rest[i].0 != n0 {
          assert rest[i] == attrs[i + 1];
        }
      }
      GetPut(item, n0, v0, name);
      forall i | 0 <= i < |attrs| ensures Get(PutAll(item, attrs), attrs[i].0) == Some(attrs[i].1) {
        if i > 0 {
          assert attrs[i] == rest[i - 1];
        }
      }
      if !HasName(attrs, name) {
        assert n0 != name;
        assert !HasName(rest, name) by {
          forall i | 0 <= i < |rest| ensures rest[i].0 != name {
            assert rest[i] == attrs[i + 1];
          }
        }
      }
    }
  }

  lemma {:induction false} PutAllDistinct<V>(item: Item<V>, attrs: Item<V>)
    requires DistinctNames(item)
    ensures DistinctNames(PutAll(item, attrs))
    decreases |attrs|
  {
    if |attrs| > 0 {
      PutShape(item, attrs[0].0, attrs[0].1);
      PutAllDistinct(Put(item, attrs[0].0, attrs[0].1), attrs[1..]);
    }
  }

  /** The item DynamoDB creates when an update names a user it does not hold. */
  function NewUserItem(chatId: int): UserItem {
    [(UserKey, N(IntToString(chatId)))]
  }

  /** The item DynamoDB creates when an update names a video it does not hold. */
  function NewVideoRecord(videoId: string): VideoRecord {
    [(VideoKey, videoId)]
  }

  /** A user item has distinct names and carries its own key. */
  predicate UserItemOk(chatId: int, item: UserItem) {
    DistinctNames(item) && Get(item, UserKey) == Some(N(IntToString(chatId)))
  }

  /** A video record has distinct names and carries its own key. */
  predicate VideoRecordOk(videoId: string, rec: VideoRecord) {
    DistinctNames(rec) && Get(rec, VideoKey) == Some(videoId)
  }

  /** The table invariant: every item is well formed under its key. */
  predicate WellFormed(db: Db) {
    && (forall c :: c in db.users ==> UserItemOk(c, db.users[c]))
    && (forall v :: v in db.videos ==> VideoRecordOk(v, db.videos[v]))
  }

  /** `update_item` on the users table with `SET name = value`. */
  function SetUserAttrs(db: Db, chatId: int, attrs: Item<AttrValue>): Db {
    var item := if chatId in db.users then db.users[chatId] else NewUserItem(chatId);
    db.(users := db.users[chatId := PutAll(item, attrs)])
  }

  /** Python's `x not in xs` test followed by `list_append(xs, [x])`. */
  function AppendIfAbsent(xs: seq<AttrValue>, x: AttrValue): (r: seq<AttrValue>)
    ensures x in r
    ensures xs <= r && |r| <= |xs| + 1
    ensures forall y :: y in r <==> y in xs || y == x
    ensures x in xs ==> r == xs
    ensures NoDuplicates(xs) ==> NoDuplicates(r)
  {
    if x in xs then xs else xs + [x]
  }

  predicate NoDuplicates<T(==)>(xs: seq<T>) {
    forall i, j :: 0 <= i < j < |xs| ==> xs[i] != xs[j]
  }

  /** The list-valued attribute `attr` of a user, when it is a list. */
  function ListAttr(db: Db, chatId: int, attr: string): Option<seq<AttrValue>> {
    if chatId !in db.users then None
    else match Get<AttrValue>(db.users[chatId], attr)
      case Some(L(xs)) => Some(xs)
      case _ => None
  }

  /** The common tail of `add_video_to_user` and `add_note_to_user` once the
      list has been read: append the id unless it is already there. */
  function AddToList(db: Db, chatId: int, attr: string, xs: seq<AttrValue>, id: string): Effect {
    if S(id) in xs then Effect(db, None)
    else Effect(SetUserAttrs(db, chatId, [(attr, L(xs + [S(id)]))]), None)
  }

  /** `add_video_to_user(client, chat_id, video_id)`. A user without a
      `videos` list makes the source write an empty list and then fail on the
      update response; a user the table does not hold makes it fail at once. */
  function AddVideoToUser(db: Db, chatId: int, videoId: string): (r: Effect)
    ensures r.error.None? <==> ListAttr(db, chatId, Videos).Some?
    ensures r.error.None? ==> (
      var xs := ListAttr(db, chatId, Videos).value;
      && ListAttr(r.db, chatId, Videos) == Some(AppendIfAbsent(xs, S(videoId)))
      && S(videoId) in ListAttr(r.db, chatId, Videos).value)
    ensures ListAttr(db, chatId, Videos).Some? && S(videoId) in ListAttr(db, chatId, Videos).value ==>
      r == Effect(db, None)
    ensures chatId !in db.users ==> r == Effect(db, Some(NoItem))
    ensures chatId in db.users && !HasName(db.users[chatId], Videos) ==>
      r.error == Some(UpdateResponseNotList) && ListAttr(r.db, chatId, Videos) == Some([])
    ensures chatId in db.users && HasName(db.users[chatId], Videos) && ListAttr(db, chatId, Videos).None? ==>
      r == Effect(db, Some(NotOfType(Videos)))
    ensures r.db.videos == db.videos
    ensures r.db.users - {chatId} == db.users - {chatId}
    ensures chatId in db.users ==> chatId in r.db.users && forall n :: n != Videos ==>
      Get(r.db.users[chatId], n) == Get(db.users[chatId], n)
  {
    if chatId !in db.users then Effect(db, Some(NoItem))
    else
      var item := db.users[chatId];
      match Get<AttrValue>(item, Videos)
      case None =>
        AddListFrame(db, chatId, Videos, []);
        Effect(SetUserAttrs(db, chatId, [(Videos, L([]))]), Some(UpdateResponseNotList))
      case Some(L(xs)) =>
        AddListFrame(db, chatId, Videos, xs + [S(videoId)]);
        AddToList(db, chatId, Videos, xs, videoId)
      case Some(_) => Effect(db, Some(NotOfType(Videos)))
  }

  /** `add_note_to_user(client, chat_id, file_name)`. Unlike the video case,
      a user the table does not hold goes down the same path as one without a
      `notes` list: the source creates the item with an empty list and then
      fails on the update response. */
  function AddNoteToUser(db: Db, chatId: int, fileName: string): (r: Effect)
    ensures r.error.None? <==> ListAttr(db, chatId, Notes).Some?
    ensures r.error.None? ==> (
      var xs := ListAttr(db, chatId, Notes).value;
      && ListAttr(r.db, chatId, Notes) == Some(AppendIfAbsent(xs, S(fileName)))
      && S(fileName) in ListAttr(r.db, chatId, Notes).value)
    ensures ListAttr(db, chatId, Notes).Some? && S(fileName) in ListAttr(db, chatId, Notes).value ==>
      r == Effect(db, None)
    ensures chatId !in db.users ==>
      && r.error == Some(UpdateResponseNotList)
      && chatId in r.db.users && r.db.users[chatId] == NewUserItem(chatId) + [(Notes, L([]))]
    ensures chatId in db.users && !HasName(db.users[chatId], Notes) ==>
      r.error == Some(UpdateResponseNotList) && ListAttr(r.db, chatId, Notes) == Some([])
    ensures chatId in db.users && HasName(db.users[chatId], Notes) && ListAttr(db, chatId, Notes).None? ==>
      r == Effect(db, Some(NotOfType(Notes)))
    ensures r.db.videos == db.videos
    ensures r.db.users - {chatId} == db.users - {chatId}
    ensures chatId in db.users ==> chatId in r.db.users && forall n :: n != Notes ==>
      Get(r.db.users[chatId], n) == Get(db.users[chatId], n)
  {
    if chatId !in db.users || Get(db.users[chatId], Notes).None? then
      AddListFrame(db, chatId, Notes, []);
      Effect(SetUserAttrs(db, chatId, [(Notes, L([]))]), Some(UpdateResponseNotList))
    else
      match Get<AttrValue>(db.users[chatId], Notes)
      case Some(L(xs)) =>
        AddListFrame(db, chatId, Notes, xs + [S(fileName)]);
        AddToList(db, chatId, Notes, xs, fileName)
      case Some(_) => Effect(db, Some(NotOfType(Notes)))
  }

  /** Writing one list attribute of one user touches nothing else. */
  lemma AddListFrame(db: Db, chatId: int, attr: string, ys: seq<AttrValue>)
    requires attr != UserKey
    ensures var db' := SetUserAttrs(db, chatId, [(attr, L(ys))]);
      && db'.videos == db.videos
      && db'.users - {chatId} == db.users - {chatId}
      && ListAttr(db', chatId, attr) == Some(ys)
      && (chatId in db.users ==> forall n :: n != attr ==> Get(db'.users[chatId], n) == Get(db.users[chatId], n))
      && (chatId !in db.users ==> db'.users[chatId] == NewUserItem(chatId) + [(attr, L(ys))])
  {
    var item := if chatId in db.users then db.users[chatId] else NewUserItem(chatId);
    var item' := PutAll(item, [(attr, L(ys))]);
    var attrs := [(attr, L(ys))];
    assert attrs[1..] == [];
    assert PutAll(Put(item, attr, L(ys)), attrs[1..]) == Put(item, attr, L(ys));
    assert item' == Put(item, attr, L(ys));
    GetPut(item, attr, L(ys), attr);
    forall n | true ensures n != attr ==> Get(item', n) == Get(item, n) {
      GetPut(item, attr, L(ys), n);
    }
    if chatId !in db.users {
      assert item[1..] == [];
      assert item' == [item[0]] + Put([], attr, L(ys));
    }
  }
  // ---------------------------------------------------------------------------
  // The missing-list branch as evidently intended
  // ---------------------------------------------------------------------------

  /** The list a user holds under `attr`, with a missing user or attribute
      read as the empty list; `None` when the attribute is not a list. */
  function ListOrEmpty(db: Db, chatId: int, attr: string): (r: Option<seq<AttrValue>>)
    ensures chatId !in db.users || !HasName(db.users[chatId], attr) ==> r == Some([])
    ensures ListAttr(db, chatId, attr).Some? ==> r == ListAttr(db, chatId, attr)
  {
    if chatId !in db.users then Some([])
    else match Get<AttrValue>(db.users[chatId], attr)
      case None => Some([])
      case Some(L(xs)) => Some(xs)
      case Some(_) => None
  }

  /** Append-if-absent as the docstrings of `add_video_to_user` and
      `add_note_to_user` describe it: a user or list that does not exist yet
      starts out empty, and the id always ends up in the list. */
  function AddIdToList(db: Db, chatId: int, attr: string, id: string): (r: Effect)
    requires attr != UserKey
    ensures r.error.None? <==> ListOrEmpty(db, chatId, attr).Some?
    ensures r.error.None? ==>
      ListAttr(r.db, chatId, attr) == Some(AppendIfAbsent(ListOrEmpty(db, chatId, attr).value, S(id)))
    ensures r.db.videos == db.videos
    ensures r.db.users - {chatId} == db.users - {chatId}
    ensures chatId in db.users ==> chatId in r.db.users && forall n :: n != attr ==>
      Get(r.db.users[chatId], n) == Get(db.users[chatId], n)
  {
    match ListOrEmpty(db, chatId, attr)
    case None => Effect(db, Some(NotOfType(attr)))
    case Some(xs) =>
      var ys := AppendIfAbsent(xs, S(id));
      AddListFrame(db, chatId, attr, ys);
      Effect(SetUserAttrs(db, chatId, [(attr, L(ys))]), None)
  }

  /** The corrected operation agrees with the source wherever the source
      succeeds. */
  lemma AddIdToListAgrees(db: Db, chatId: int, id: string)
    ensures AddVideoToUser(db, chatId, id).error.None? ==>
      AddIdToList(db, chatId, Videos, id).error.None? &&
      ListAttr(AddIdToList(db, chatId, Videos, id).db, chatId, Videos) == ListAttr(AddVideoToUser(db, chatId, id).db, chatId, Videos)
    ensures AddNoteToUser(db, chatId, id).error.None? ==>
      AddIdToList(db, chatId, Notes, id).error.None? &&
      ListAttr(AddIdToList(db, chatId, Notes, id).db, chatId, Notes) == ListAttr(AddNoteToUser(db, chatId, id).db, chatId, Notes)
  {
  }

  /** As written, a user without a `videos` list never gets the video: the
      source stores an empty list and fails, while the corrected operation
      stores the one-element list. */
  lemma FirstVideoIsLost(db: Db, chatId: int, videoId: string)
    requires chatId in db.users && !HasName(db.users[chatId], Videos)
    ensures AddVideoToUser(db, chatId, videoId).error == Some(UpdateResponseNotList)
    ensures ListAttr(AddVideoToUser(db, chatId, videoId).db, chatId, Videos) == Some([])
    ensures ListAttr(AddIdToList(db, chatId, Videos, videoId).db, chatId, Videos) == Some([S(videoId)])
  {
    AddListFrame(db, chatId, Videos, []);
    assert AppendIfAbsent([], S(videoId)) == [S(videoId)];
  }

  /** The same for notes, which also covers a user the table does not hold. */
  lemma FirstNoteIsLost(db: Db, chatId: int, fileName: string)
    requires chatId !in db.users || !HasName(db.users[chatId], Notes)
    ensures AddNoteToUser(db, chatId, fileName).error == Some(UpdateResponseNotList)
    ensures ListAttr(AddNoteToUser(db, chatId, fileName).db, chatId, Notes) == Some([])
    ensures ListAttr(AddIdToList(db, chatId, Notes, fileName).db, chatId, Notes) == Some([S(fileName)])
  {
    AddListFrame(db, chatId, Notes, []);
    assert AppendIfAbsent([], S(fileName)) == [S(fileName)];
  }

  /** Adding the same video twice is the same as adding it once. */
  lemma AddVideoIdempotent(db: Db, chatId: int, videoId: string)
    requires AddVideoToUser(db, chatId, videoId).error.None?
    ensures var db' := AddVideoToUser(db, chatId, videoId).db;
      AddVideoToUser(db', chatId, videoId) == Effect(db', None)
  {
  }

  /** Adding the same note twice is the same as adding it once. */
  lemma AddNoteIdempotent(db: Db, chatId: int, fileName: string)
    requires AddNoteToUser(db, chatId, fileName).error.None?
    ensures var db' := AddNoteToUser(db, chatId, fileName).db;
      AddNoteToUser(db', chatId, fileName) == Effect(db', None)
  {
  }

  /** The table invariant survives every write of a non-key attribute. */
  lemma SetUserAttrsWellFormed(db: Db, chatId: int, attrs: Item<AttrValue>)
    requires WellFormed(db)
    requires !HasName(attrs, UserKey)
    ensures WellFormed(SetUserAttrs(db, chatId, attrs))
  {
    var item := if chatId in db.users then db.users[chatId] else NewUserItem(chatId);
    GetPutAll(item, [], UserKey);
    PutAllDistinct(item, attrs);
    PutAllKeepsOthers(item, attrs, UserKey);
  }

  /** Names that are not written keep their values, duplicates in the
      written list or not. */
  lemma {:induction false} PutAllKeepsOthers<V>(item: Item<V>, attrs: Item<V>, name: string)
    requires !HasName(attrs, name)
    ensures Get(PutAll(item, attrs), name) == Get(item, name)
    decreases |attrs|
  {
    if |attrs| > 0 {
      assert attrs[0].0 != name;
      GetPut(item, attrs[0].0, attrs[0].1, name);
      assert !HasName(attrs[1..], name) by {
        forall i | 0 <= i < |attrs[1..]| ensures attrs[1..][i].0 != name {
          assert attrs[1..][i] == attrs[i + 1];
        }
      }
      PutAllKeepsOthers(Put(item, attrs[0].0, attrs[0].1), attrs[1..], name);
    }
  }

  lemma AddVideoWellFormed(db: Db, chatId: int, videoId: string)
    requires WellFormed(db)
    ensures WellFormed(AddVideoToUser(db, chatId, videoId).db)
  {
    var xs := ListAttr(db, chatId, Videos);
    SetUserAttrsWellFormed(db, chatId, [(Videos, L([]))]);
    if xs.Some? {
      SetUserAttrsWellFormed(db, chatId, [(Videos, L(xs.value + [S(videoId)]))]);
    }
  }

  lemma AddNoteWellFormed(db: Db, chatId: int, fileName: string)
    requires WellFormed(db)
    ensures WellFormed(AddNoteToUser(db, chatId, fileName).db)
  {
    var xs := ListAttr(db, chatId, Notes);
    SetUserAttrsWellFormed(db, chatId, [(Notes, L([]))]);
    if xs.Some? {
      SetUserAttrsWellFormed(db, chatId, [(Notes, L(xs.value + [S(fileName)]))]);
    }
  }

  /** The `get_item` on the videos table for each listed id, in list order. */
  function LookupVideos(videos: map<string, VideoRecord>, ids: seq<AttrValue>): (r: Result<seq<VideoRecord>, StoreError>)
    ensures r.Success? <==> forall i :: 0 <= i < |ids| ==> ids[i].S? && ids[i].s in videos
    ensures r.Success? ==> (|r.value| == |ids|
      && forall i :: 0 <= i < |ids| ==> r.value[i] == videos[ids[i].s])
  {
    if |ids| == 0 then Success([])
    else match ids[0]
      case S(id) =>
        if id !in videos then Failure(VideoMissing(id))
        else
          var rest := LookupVideos(videos, ids[1..]);
          assert forall i :: 1 <= i < |ids| ==> ids[i] == ids[1..][i - 1];
          if rest.Failure? then Failure(rest.error) else Success([videos[id]] + rest.value)
      case _ => Failure(NotOfType(Videos))
  }

  /** `retrieve_user_videos(client, chat_id)`: no user or no `videos`
      attribute reads as the empty list; otherwise one record per listed id,
      in list order. */
  function RetrieveUserVideos(db: Db, chatId: int): (r: Result<seq<VideoRecord>, StoreError>)
    ensures chatId !in db.users || !HasName(db.users[chatId], Videos) ==> r == Success([])
    ensures ListAttr(db, chatId, Videos).Some? ==> r == LookupVideos(db.videos, ListAttr(db, chatId, Videos).value)
  {
    if chatId !in db.users then Success([])
    else match Get<AttrValue>(db.users[chatId], Videos)
      case None => Success([])
      case Some(L(ids)) => LookupVideos(db.videos, ids)
      case Some(_) => Failure(NotOfType(Videos))
  }

  /** The `note['S']` of each listed note, in list order. */
  function NoteNames(notes: seq<AttrValue>): (r: Result<seq<string>, StoreError>)
    ensures r.Success? <==> forall i :: 0 <= i < |notes| ==> notes[i].S?
    ensures r.Success? ==> (|r.value| == |notes|
      && forall i :: 0 <= i < |notes| ==> r.value[i] == notes[i].s)
  {
    if |notes| == 0 then Success([])
    else
      var rest := NoteNames(notes[1..]);
      assert forall i :: 1 <= i < |notes| ==> notes[i] == notes[1..][i - 1];
      if !notes[0].S? then Failure(NotOfType(Notes))
      else if rest.Failure? then rest
      else Success([notes[0].s] + rest.value)
  }

  /** `retrieve_user_notes(client, chat_id)`. */
  function RetrieveUserNotes(db: Db, chatId: int): (r: Result<seq<string>, StoreError>)
    ensures chatId !in db.users || !HasName(db.users[chatId], Notes) ==> r == Success([])
    ensures ListAttr(db, chatId, Notes).Some? ==> r == NoteNames(ListAttr(db, chatId, Notes).value)
  {
    if chatId !in db.users then Success([])
    else match Get<AttrValue>(db.users[chatId], Notes)
      case None => Success([])
      case Some(L(notes)) => NoteNames(notes)
      case Some(_) => Failure(NotOfType(Notes))
  }

  /** `retrieve_user_openai_creds(client, chat_id)`: `None` for a missing
      user or attribute, otherwise the stored string. */
  function RetrieveUserOpenAiCreds(db: Db, chatId: int): (r: Result<Option<string>, StoreError>)
    ensures r == Success(None) <==> chatId !in db.users || !HasName(db.users[chatId], OpenAiKey)
    ensures forall k :: r == Success(Some(k)) <==>
      chatId in db.users && Get(db.users[chatId], OpenAiKey) == Some(S(k))
  {
    if chatId !in db.users then Success(None)
    else match Get<AttrValue>(db.users[chatId], OpenAiKey)
      case None => Success(None)
      case Some(S(k)) => Success(Some(k))
      case Some(_) => Failure(NotOfType(OpenAiKey))
  }

  /** The stored string values of `update_user_item`'s keyword arguments. */
  function AsStrings(attrs: Item<string>): (r: Item<AttrValue>)
    ensures |r| == |attrs|
    ensures forall i :: 0 <= i < |attrs| ==> r[i] == (attrs[i].0, S(attrs[i].1))
  {
    seq(|attrs|, i requires 0 <= i < |attrs| => (attrs[i].0, S(attrs[i].1)))
  }

  /** `update_user_item(client, chat_id, **kwargs)`, with each value already
      in its `str()` form. The user exists afterwards; each given attribute
      holds its new string, every other attribute, user and video is as
      before. */
  function UpdateUserItem(db: Db, chatId: int, attrs: Item<string>): (r: Db)
    requires DistinctNames(attrs) && !HasName(attrs, UserKey)
    ensures chatId in r.users
    ensures forall i :: 0 <= i < |attrs| ==> Get(r.users[chatId], attrs[i].0) == Some(S(attrs[i].1))
    ensures forall n :: !HasName(attrs, n) && chatId in db.users ==>
      Get(r.users[chatId], n) == Get(db.users[chatId], n)
    ensures forall n :: !HasName(attrs, n) && n != UserKey && chatId !in db.users ==>
      Get(r.users[chatId], n).None?
    ensures r.users - {chatId} == db.users - {chatId}
    ensures r.videos == db.videos
    ensures WellFormed(db) ==> WellFormed(r)
  {
    // Without a `username` argument the source first issues an update with
    // no expression, which creates the item if it is missing.
    var db1 := if !HasName(attrs, Username) && chatId !in db.users
      then db.(users := db.users[chatId := NewUserItem(chatId)]) else db;
    var typed := AsStrings(attrs);
    var item := if chatId in db1.users then db1.users[chatId] else NewUserItem(chatId);
    assert chatId !in db.users ==> item == NewUserItem(chatId);
    assert chatId in db.users ==> item == db.users[chatId];
    StringWrites(item, attrs);
    NewUserItemNames(chatId);
    UpdateUserWellFormed(db, db1, chatId, typed);
    SetUserAttrs(db1, chatId, typed)
  }

  /** Writing the string form of distinct attributes sets exactly those. */
  lemma StringWrites(item: UserItem, attrs: Item<string>)
    requires DistinctNames(attrs)
    ensures forall i :: 0 <= i < |attrs| ==> Get(PutAll(item, AsStrings(attrs)), attrs[i].0) == Some(S(attrs[i].1))
    ensures forall n :: !HasName(attrs, n) ==> Get(PutAll(item, AsStrings(attrs)), n) == Get(item, n)
    ensures !HasName(attrs, UserKey) ==> !HasName(AsStrings(attrs), UserKey)
  {
    AsStringsNames(attrs);
    PutAllFrame(item, AsStrings(attrs));
  }

  /** A fresh user item has its key and nothing else. */
  lemma NewUserItemNames(chatId: int)
    ensures DistinctNames(NewUserItem(chatId))
    ensures forall n :: n != UserKey ==> Get(NewUserItem(chatId), n).None?
  {
    forall n | n != UserKey ensures Get(NewUserItem(chatId), n).None? {
      assert !HasName(NewUserItem(chatId), n);
    }
  }

  lemma UpdateUserWellFormed(db: Db, db1: Db, chatId: int, typed: Item<AttrValue>)
    requires !HasName(typed, UserKey)
    requires db1 == db || (chatId !in db.users && db1 == db.(users := db.users[chatId := NewUserItem(chatId)]))
    ensures WellFormed(db) ==> WellFormed(SetUserAttrs(db1, chatId, typed))
  {
    if WellFormed(db) {
      NewUserItemNames(chatId);
      SetUserAttrsWellFormed(db1, chatId, typed);
    }
  }

  /** Storing values as strings keeps the attribute names. */
  lemma AsStringsNames(attrs: Item<string>)
    requires DistinctNames(attrs)
    ensures DistinctNames(AsStrings(attrs))
    ensures forall n :: HasName(AsStrings(attrs), n) <==> HasName(attrs, n)
  {
    var typed := AsStrings(attrs);
    forall i, j | 0 <= i < j < |typed| ensures typed[i].0 != typed[j].0 {
      assert typed[i].0 == attrs[i].0 && typed[j].0 == attrs[j].0;
    }
    forall n | true ensures HasName(typed, n) <==> HasName(attrs, n) {
      if HasName(typed, n) {
        var k :| 0 <= k < |typed| && typed[k].0 == n;
        assert attrs[k].0 == n;
      }
      if HasName(attrs, n) {
        var k :| 0 <= k < |attrs| && attrs[k].0 == n;
        assert typed[k].0 == n;
      }
    }
  }

  /** Writing distinct attributes sets exactly those and keeps the rest. */
  lemma PutAllFrame<V>(item: Item<V>, attrs: Item<V>)
    requires DistinctNames(attrs)
    ensures forall i :: 0 <= i < |attrs| ==> Get(PutAll(item, attrs), attrs[i].0) == Some(attrs[i].1)
    ensures forall n :: !HasName(attrs, n) ==> Get(PutAll(item, attrs), n) == Get(item, n)
  {
    GetPutAll(item, attrs, "");
    forall n | !HasName(attrs, n) ensures Get(PutAll(item, attrs), n) == Get(item, n) {
      PutAllKeepsOthers(item, attrs, n);
    }
  }

  /** `update_video_item(client, video_id, **kwargs)`, with each value
      already in its `str()` form. With no arguments nothing is written;
      otherwise the video exists afterwards and only the given attributes
      of that one video change. */
  function UpdateVideoItem(db: Db, videoId: string, attrs: VideoRecord): (r: Db)
    requires DistinctNames(attrs) && !HasName(attrs, VideoKey)
    ensures |attrs| == 0 ==> r == db
    ensures |attrs| > 0 ==> (videoId in r.videos
      && forall i :: 0 <= i < |attrs| ==> Get(r.videos[videoId], attrs[i].0) == Some(attrs[i].1))
    ensures forall n :: !HasName(attrs, n) && videoId in db.videos && videoId in r.videos ==>
      Get(r.videos[videoId], n) == Get(db.videos[videoId], n)
    ensures |attrs| > 0 && videoId !in db.videos ==>
      Get(r.videos[videoId], VideoKey) == Some(videoId)
      && forall n :: !HasName(attrs, n) && n != VideoKey ==> Get(r.videos[videoId], n).None?
    ensures r.videos - {videoId} == db.videos - {videoId}
    ensures r.users == db.users
    ensures WellFormed(db) ==> WellFormed(r)
  {
    if |attrs| == 0 then db
    else
      var item := if videoId in db.videos then db.videos[videoId] else NewVideoRecord(videoId);
      PutAllFrame(item, attrs);
      NewVideoRecordNames(videoId);
      UpdateVideoWellFormed(db, videoId, item, attrs);
      db.(videos := db.videos[videoId := PutAll(item, attrs)])
  }

  /** A fresh video record has its key and nothing else. */
  lemma NewVideoRecordNames(videoId: string)
    ensures Get(NewVideoRecord(videoId), VideoKey) == Some(videoId)
    ensures forall n :: n != VideoKey ==> Get(NewVideoRecord(videoId), n).None?
  {
    forall n | n != VideoKey ensures Get(NewVideoRecord(videoId), n).None? {
      assert !HasName(NewVideoRecord(videoId), n);
    }
  }

  lemma UpdateVideoWellFormed(db: Db, videoId: string, item: VideoRecord, attrs: VideoRecord)
    requires DistinctNames(attrs) && !HasName(attrs, VideoKey)
    requires item == if videoId in db.videos then db.videos[videoId] else NewVideoRecord(videoId)
    ensures WellFormed(db) ==> WellFormed(db.(videos := db.videos[videoId := PutAll(item, attrs)]))
  {
    if WellFormed(db) {
      assert VideoRecordOk(videoId, item) by {
        if videoId !in db.videos {
          assert item == [(VideoKey, videoId)];
        }
      }
      PutAllKeepsRecordOk(videoId, item, attrs);
    }
  }

  lemma PutAllKeepsRecordOk(videoId: string, rec: VideoRecord, attrs: VideoRecord)
    requires VideoRecordOk(videoId, rec)
    requires DistinctNames(attrs) && !HasName(attrs, VideoKey)
    ensures VideoRecordOk(videoId, PutAll(rec, attrs))
  {
    PutAllDistinct(rec, attrs);
    PutAllKeepsOthers(rec, attrs, VideoKey);
  }
}
