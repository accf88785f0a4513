/** The pure parts of the Telegram handlers in `index.py`: the reply to
    `/list_my_videos` and the choice of OpenAI key for each incoming update. */
module Bot {
  import opened Wrappers
  import opened Text
  import opened Store

  const NoVideosReply: string := "You haven't requested any video yet."
  const VideoListHeader: string := "List of videos you have provided earlier:\n"
  const NumberMark: string := ". "

  // ---------------------------------------------------------------------------
  // /list_my_videos
  // ---------------------------------------------------------------------------

  /** One `k: v` line per attribute, in the record's attribute order. */
  function RenderAttrs(rec: VideoRecord): string
  {
    if |rec| == 0 then ""
    else RenderAttrs(rec[..|rec| - 1]) + AttrLine(rec[|rec| - 1])
  }

  function AttrLine(attr: (string, string)): string {
    attr.0 + ": " + attr.1 + "\n"
  }

  /** The entry of the video at 0-based position `i`. */
  function RenderEntry(i: nat, rec: VideoRecord): string {
    NatToString(i + 1) + NumberMark + RenderAttrs(rec)
  }

  /** All entries, in list order. */
  function RenderEntries(videos: seq<VideoRecord>): string
  {
    if |videos| == 0 then ""
    else RenderEntries(videos[..|videos| - 1]) + RenderEntry(|videos| - 1, videos[|videos| - 1])
  }

  /** The reply to `/list_my_videos` for the retrieved videos. */
  function RenderVideoList(videos: seq<VideoRecord>): (reply: string)
    ensures |videos| == 0 <==> reply == NoVideosReply
    ensures |videos| > 0 ==> VideoListHeader <= reply
  {
    if |videos| == 0 then NoVideosReply
    else
      var reply := VideoListHeader + RenderEntries(videos);
      assert reply[0] == 'L';
      reply
  }

  /** The entries are exactly one numbered block per video, in list order. */
  lemma {:induction false} EntriesAreConcat(videos: seq<VideoRecord>)
    ensures RenderEntries(videos) == Concat(seq(|videos|, i requires 0 <= i < |videos| => RenderEntry(i, videos[i])))
    decreases |videos|
  {
    var n := |videos|;
    var blocks := seq(n, i requires 0 <= i < n => RenderEntry(i, videos[i]));
    if n > 0 {
      var init := videos[..n - 1];
      EntriesAreConcat(init);
      var initBlocks := seq(n - 1, i requires 0 <= i < n - 1 => RenderEntry(i, init[i]));
      assert blocks[..n - 1] == initBlocks;
    }
  }

  /** A video added at the end of the list adds one entry at the end of the
      reply, numbered after the existing ones; earlier text is unchanged. */
  lemma AppendVideoAppendsEntry(videos: seq<VideoRecord>, rec: VideoRecord)
    requires |videos| > 0
    ensures RenderVideoList(videos + [rec]) == RenderVideoList(videos) + RenderEntry(|videos|, rec)
  {
    var vs := videos + [rec];
    assert vs[..|vs| - 1] == videos;
    assert RenderEntries(vs) == RenderEntries(videos) + RenderEntry(|videos|, rec);
    assert VideoListHeader + (RenderEntries(videos) + RenderEntry(|videos|, rec))
        == (VideoListHeader + RenderEntries(videos)) + RenderEntry(|videos|, rec);
  }

  /** An entry starts with its 1-based number, which reads back as `i + 1`. */
  lemma EntryNumber(i: nat, rec: VideoRecord)
    ensures TakeDigits(RenderEntry(i, rec)) == NatToString(i + 1)
    ensures ParseNat(TakeDigits(RenderEntry(i, rec))) == i + 1
  {
    var rest := NumberMark + RenderAttrs(rec);
    assert RenderEntry(i, rec) == NatToString(i + 1) + rest;
    assert rest[0] == '.';
    TakeDigitsOfRun(NatToString(i + 1), rest);
    ParseNatToString(i + 1);
  }

  /** The `+=` loops of the handler, which build the same reply; the
      entries are accumulated apart from the header. */
  method RenderVideoListLoop(videos: seq<VideoRecord>) returns (reply: string)
    ensures reply == RenderVideoList(videos)
  {
    if |videos| == 0 {
      return NoVideosReply;
    }
    var entries := "";
    for ind := 0 to |videos|
      invariant entries == RenderEntries(videos[..ind])
    {
      var rec := videos[ind];
      var lines := "";
      for j := 0 to |rec|
        invariant lines == RenderAttrs(rec[..j])
      {
        assert rec[..j + 1][..j] == rec[..j];
        lines := lines + AttrLine(rec[j]);
      }
      assert rec[..|rec|] == rec;
      assert videos[..ind + 1][..ind] == videos[..ind];
      entries := entries + (NatToString(ind + 1) + NumberMark + lines);
    }
    assert videos[..|videos|] == videos;
    reply := VideoListHeader + entries;
  }

  /** `/list_my_videos` end to end: the stored list, or the store's error. */
  function ListMyVideos(db: Db, chatId: int): (r: Result<string, StoreError>)
    ensures chatId !in db.users ==> r == Success(NoVideosReply)
    ensures forall vs :: RetrieveUserVideos(db, chatId) == Success(vs) ==> r == Success(RenderVideoList(vs))
  {
    match RetrieveUserVideos(db, chatId)
    case Success(vs) => Success(RenderVideoList(vs))
    case Failure(e) => Failure(e)
  }

  // ---------------------------------------------------------------------------
  // OpenAI key selection
  // ---------------------------------------------------------------------------

  /** The key used for an update: the decrypted stored key when one is stored
      and non-empty (Python truthiness), otherwise the default key. */
  function SelectOpenAiKey(stored: Option<string>, decrypt: string -> string, default: string): (key: string)
    ensures stored == None || stored == Some("") ==> key == default
    ensures forall k :: stored == Some(k) && k != "" ==> key == decrypt(k)
  {
    if stored.Some? && stored.value != "" then decrypt(stored.value) else default
  }

  /** The key chosen for a user, or the store's error. */
  function OpenAiKeyFor(db: Db, chatId: int, decrypt: string -> string, default: string): (r: Result<string, StoreError>)
    ensures chatId !in db.users ==> r == Success(default)
    ensures chatId in db.users && Get(db.users[chatId], OpenAiKey).None? ==> r == Success(default)
    ensures forall k :: chatId in db.users && Get(db.users[chatId], OpenAiKey) == Some(S(k)) ==>
      r == Success(if k == "" then default else decrypt(k))
  {
    match RetrieveUserOpenAiCreds(db, chatId)
    case Success(stored) => Success(SelectOpenAiKey(stored, decrypt, default))
    case Failure(e) => Failure(e)
  }

  /** `process_event`'s store work: record the username, then pick the key. */
  function ProcessEvent(db: Db, chatId: int, username: string, decrypt: string -> string, default: string): (r: (Db, Result<string, StoreError>))
    ensures chatId in r.0.users && Get(r.0.users[chatId], Username) == Some(S(username))
    ensures r.1 == OpenAiKeyFor(db, chatId, decrypt, default)
  {
    var attrs := [(Username, username)];
    assert !HasName(attrs, UserKey) by { assert attrs[0].0[0] != UserKey[0]; }
    var db' := UpdateUserItem(db, chatId, attrs);
    assert !HasName(attrs, OpenAiKey) by { assert attrs[0].0[0] != OpenAiKey[0]; }
    (db', OpenAiKeyFor(db', chatId, decrypt, default))
  }

  /** The keyword arguments of the `/provide_openai_key` handler's
      `update_user_item(..., openai_key=encrypted)` call. */
  function KeyAttrs(encrypted: string): (attrs: Item<string>)
    ensures DistinctNames(attrs) && !HasName(attrs, UserKey)
    ensures attrs == [(OpenAiKey, encrypted)]
  {
    var attrs := [(OpenAiKey, encrypted)];
    assert !HasName(attrs, UserKey) by { assert attrs[0].0[0] != UserKey[0]; }
    attrs
  }

  /** After `/provide_openai_key` stores an encrypted key, later updates use
      its decryption (or the default if the stored text is empty). */
  lemma RegisteredKeyIsUsed(db: Db, chatId: int, encrypted: string, decrypt: string -> string, default: string)
    ensures OpenAiKeyFor(UpdateUserItem(db, chatId, KeyAttrs(encrypted)), chatId, decrypt, default)
         == Success(if encrypted == "" then default else decrypt(encrypted))
  {
  }

  /** Every update first records the username, so a new user's item has no
      `videos` list, and a direct `add_video_to_user(client, chat_id,
      video_id)` on it, as written, fails without recording the video. */
  lemma NewUserFirstVideoIsLost(db: Db, chatId: int, username: string, videoId: string,
                                decrypt: string -> string, default: string)
    requires chatId !in db.users
    ensures var db' := ProcessEvent(db, chatId, username, decrypt, default).0;
      && AddVideoToUser(db', chatId, videoId).error == Some(UpdateResponseNotList)
      && ListAttr(AddIdToList(db', chatId, Videos, videoId).db, chatId, Videos) == Some([S(videoId)])
  {
    var attrs := [(Username, username)];
    assert !HasName(attrs, Videos) by { assert attrs[0].0[0] != Videos[0]; }
    assert Videos != UserKey by { assert Videos[0] != UserKey[0]; }
    var db' := ProcessEvent(db, chatId, username, decrypt, default).0;
    assert db' == UpdateUserItem(db, chatId, attrs);
    FirstVideoIsLost(db', chatId, videoId);
  }
}
