/**
 * The conversation state machine of the Korean vocabulary bot: the per-user
 * session (`context.user_data` with its keys `mode`, `answer`, `quiz_pool`
 * and `quiz_index`), the message dispatcher, the quiz engine, the `/add`,
 * `/list`, `/start` and `/stop` commands, and the reply wrapper.
 *
 * Every reply the bot tries to send is appended to an outbox together with
 * what became of it; whether a send succeeds is up to the transport and is
 * chosen nondeterministically. Which rows the database samples is likewise
 * nondeterministic (see VocabStore), and the coin flip that picks a quiz
 * question's direction is the parameter `askMeaning`.
 */
module VocabBot {
  import opened Wrappers
  import opened Text
  import opened VocabStore

  // ---------------------------------------------------------------- fixed texts

  const BtnAdd: string := "➕ Add"
  const BtnList: string := "📋 List"
  const BtnQuiz: string := "🧠 Quiz"
  const BtnStop: string := "⛔ Stop"

  /** Rows fetched for a quiz pool, for the newest-words listing and for the random listing. */
  const QuizPoolSize: nat := 50
  const RecentLimit: nat := 10
  const RandomLimit: nat := 5

  const StartText: string := "안녕하세요! Korean Vocabulary Bot입니다!\n\nUse the buttons below to choose a function.\nYou can stay in a mode until you press another button.\n\nButtons: Add, List, Quiz, Stop"
  const CommandUsage: string := "❌ Usage: /add 사랑 love [optional example sentence]"
  const AddModeUsage: string := "❌ Usage: korean english [optional example sentence]"
  const AddModeOn: string := "➕ Add mode activated.\nSend words as: korean english [optional example sentence]\nExample: 사랑 love I love you\n\nPress '⛔ Stop' to exit."
  const QuizModeOn: string := "🧠 Quiz mode activated. Send your answers or press '⛔ Stop' to exit."
  const NoWords: string := "No words yet! Use Add to add some first."
  const Stopped: string := "⛔ Stopped. Returning to menu."
  const NoActiveQuestion: string := "No active question. Press 'Quiz' to start."
  const CorrectText: string := "✅ Correct!"
  const ChooseButton: string := "Press a button to start (Add, List, Quiz, Stop)."
  const StopCommandText: string := "Stopped. Returning to menu...\n\nCommands:\n/add 사랑 love I love you — add a word\n/list — show recent words\n/quiz — show random quiz question\n/stop — stop and return to menu"
  const LatestHeader: string := "🆕 Latest 10 Words:\n \n"
  const RandomHeader: string := "\n🎲 Random 5 Words:\n \n"

  function WrongText(answer: string): string {
    "❌ Wrong. Correct answer: " + answer
  }

  function AddedText(korean: string, english: string): string {
    "✅ Added: " + korean + " = " + english
  }

  // ---------------------------------------------------------------- session values

  /** The `mode` key: absent (Idle), `"add"` or `"quiz"`. */
  datatype Mode = Idle | Adding | Quizzing

  /** What became of one send: delivered, or refused with `Forbidden`, `BadRequest` or any other error. */
  datatype Delivery = Delivered | Forbidden | BadRequest | Failed

  datatype Reply = Reply(text: string, delivery: Delivery)

  /** Some reply in `replies` was refused because the user blocked the bot. */
  predicate Blocked(replies: seq<Reply>) {
    replies != [] && (replies[|replies| - 1].delivery == Forbidden || Blocked(replies[..|replies| - 1]))
  }

  /**
   * The mode a handler leaves behind when it set `m` and then sent `replies`:
   * every send refused with `Forbidden` clears the mode.
   */
  function ModeAfter(m: Mode, replies: seq<Reply>): Mode {
    if Blocked(replies) then Idle else m
  }

  /** Sending one more reply clears the mode exactly when that reply is refused with `Forbidden`. */
  lemma ModeAfterAppend(m: Mode, replies: seq<Reply>, r: Reply)
    ensures ModeAfter(ModeAfter(m, replies), [r]) == ModeAfter(m, replies + [r])
  {
    var all := replies + [r];
    assert all[..|replies|] == replies && all[|all| - 1] == r;
    assert Blocked(all) <==> r.delivery == Forbidden || Blocked(replies);
    assert [r][..0] == [];
    assert Blocked([r]) <==> r.delivery == Forbidden;
  }

  /** The texts of `replies`, in order. */
  function TextsOf(replies: seq<Reply>): (texts: seq<string>)
    ensures |texts| == |replies|
    ensures forall k :: 0 <= k < |replies| ==> texts[k] == replies[k].text
  {
    seq(|replies|, k requires 0 <= k < |replies| => replies[k].text)
  }

  /** The texts of the four keyboard buttons, which take precedence over the mode. */
  predicate IsButton(text: string) {
    text == BtnAdd || text == BtnList || text == BtnQuiz || text == BtnStop
  }

  // ---------------------------------------------------------------- adding words

  /**
   * The row that the tokens of an add request describe: token 0 is the Korean
   * word, token 1 the English meaning, and the other tokens joined by single
   * spaces the example; nothing for fewer than two tokens.
   */
  function ParseEntry(parts: seq<string>): (r: Option<Entry>)
    ensures r.None? <==> |parts| < 2
    ensures r.Some? ==> r.value == Entry(parts[0], parts[1], JoinSpace(parts[2..]))
    ensures |parts| == 2 ==> r == Some(Entry(parts[0], parts[1], ""))
  {
    if |parts| < 2 then None
    else Some(Entry(parts[0], parts[1], if |parts| > 2 then JoinSpace(parts[2..]) else ""))
  }

  /**
   * Typing `korean english example words` adds exactly that row: splitting
   * the line and parsing the tokens gives back the Korean word, the English
   * word and the example words joined by single spaces.
   */
  lemma AddLineRoundTrip(korean: string, english: string, example: seq<string>)
    requires korean != [] && NoSpace(korean) && english != [] && NoSpace(english)
    requires forall k :: 0 <= k < |example| ==> example[k] != [] && NoSpace(example[k])
    ensures ParseEntry(Split(JoinSpace([korean, english] + example))) == Some(Entry(korean, english, JoinSpace(example)))
  {
    var words := [korean, english] + example;
    assert words[0] == korean && words[1] == english && words[2..] == example;
    assert forall k :: 0 <= k < |words| ==> words[k] != [] && NoSpace(words[k]) by {
      forall k | 2 <= k < |words|
        ensures words[k] != [] && NoSpace(words[k])
      {
        assert words[k] == example[k - 2];
      }
    }
    SplitJoin(words);
    var entry := ParseEntry(words);
    assert entry == Some(Entry(korean, english, JoinSpace(example)));
  }

  /** `/add 사랑 love I love you` stores the row (사랑, love, "I love you"). */
  lemma AddExample()
    ensures ParseEntry(Split("사랑 love I love you")) == Some(Entry("사랑", "love", "I love you"))
  {
    var example := ["I", "love", "you"];
    assert JoinSpace(["사랑", "love"] + example) == "사랑 love I love you";
    assert JoinSpace(example) == "I love you";
    AddLineRoundTrip("사랑", "love", example);
  }

  // ---------------------------------------------------------------- quiz questions

  /** The stored answer to a question about `row`: its English word when the meaning is asked, else its Korean word, normalised. */
  function ExpectedAnswer(row: Pair, askMeaning: bool): string {
    Normalize(if askMeaning then row.english else row.korean)
  }

  function QuestionText(row: Pair, askMeaning: bool): string {
    if askMeaning then "🧠 What does '" + row.korean + "' mean in English?"
    else "🧠 How do you say '" + row.english + "' in Korean?"
  }

  /** The verdict on a received (already stripped) text against the stored answer. */
  function Verdict(text: string, answer: string): string {
    if Normalize(text) == answer then CorrectText else WrongText(answer)
  }

  /**
   * Typing the asked word itself is graded correct however its letters are
   * cased and whatever whitespace surrounds it.
   */
  lemma AnswerAccepted(row: Pair, askMeaning: bool, p: string, typed: string, q: string)
    requires AllSpace(p) && AllSpace(q)
    requires Lower(typed) == Lower(if askMeaning then row.english else row.korean)
    ensures Verdict(Strip(p + typed + q), ExpectedAnswer(row, askMeaning)) == CorrectText
  {
    NormalizeStripped(p + typed + q);
    NormalizeIgnoresPaddingAndCase(p, typed, if askMeaning then row.english else row.korean, q);
  }

  /** Asked for the meaning of 사랑 (love), the message `  LOVE ` is graded correct. */
  lemma GradingExample()
    ensures Verdict(Strip("  LOVE "), ExpectedAnswer(Pair("사랑", "love"), true)) == CorrectText
  {
    assert Lower("LOVE") == "love" == Lower("love");
    assert "  " + "LOVE" + " " == "  LOVE ";
    AnswerAccepted(Pair("사랑", "love"), true, "  ", "LOVE", " ");
  }

  /** A text whose normal form differs from the answer is graded wrong, and the reply shows the answer. */
  lemma WrongAnswerShown(text: string, answer: string)
    requires Normalize(text) != answer
    ensures Verdict(text, answer) == WrongText(answer)
    ensures Verdict(text, answer)[|WrongText("")|..] == answer
  {
  }

  // ---------------------------------------------------------------- the listing

  /** One bullet line of the listing; the example, when there is one, goes on a second line. */
  function EntryLine(w: Entry): string {
    "• " + w.korean + " → " + w.english + (if w.example != "" then "\n   📘 " + w.example else "") + "\n"
  }

  /** The bullet lines of `rows`, in order. */
  function Lines(rows: seq<Entry>): string {
    if rows == [] then "" else Lines(rows[..|rows| - 1]) + EntryLine(rows[|rows| - 1])
  }

  /** The text of `list_words`. */
  function Listing(recent: seq<Entry>, random: seq<Entry>): string {
    LatestHeader + Lines(recent) + RandomHeader + Lines(random)
  }

  /** The lines of two runs of rows are the lines of the first run followed by those of the second. */
  lemma {:induction false} LinesAppend(a: seq<Entry>, b: seq<Entry>)
    ensures Lines(a + b) == Lines(a) + Lines(b)
    decreases |b|
  {
    if b == [] {
      assert a + b == a;
    } else {
      var b', last := b[..|b| - 1], b[|b| - 1];
      assert (a + b)[..|a + b| - 1] == a + b';
      assert (a + b)[|a + b| - 1] == last;
      LinesAppend(a, b');
      calc {
        Lines(a + b);
        Lines(a + b') + EntryLine(last);
        Lines(a) + Lines(b') + EntryLine(last);
        Lines(a) + (Lines(b') + EntryLine(last));
        Lines(a) + Lines(b);
      }
    }
  }

  /** Every row has its own line in the listing, placed after the lines of the rows before it. */
  lemma LinesInclude(rows: seq<Entry>, k: nat)
    requires k < |rows|
    ensures var off := |Lines(rows[..k])|;
      off + |EntryLine(rows[k])| <= |Lines(rows)| && Lines(rows)[off..off + |EntryLine(rows[k])|] == EntryLine(rows[k])
  {
    assert rows == rows[..k + 1] + rows[k + 1..];
    assert rows[..k + 1][..k] == rows[..k];
    LinesAppend(rows[..k + 1], rows[k + 1..]);
  }

  /** One `for w in ...: text += ...` loop of `list_words`: it appends the lines of `rows` to `text`. */
  method AppendLines(text: string, rows: seq<Entry>) returns (t: string)
    ensures t == text + Lines(rows)
  {
    t := text;
    for i := 0 to |rows|
      invariant t == text + Lines(rows[..i])
    {
      assert rows[..i + 1][..i] == rows[..i];
      t := t + EntryLine(rows[i]);
    }
    assert rows[..|rows|] == rows;
  }

  /** The text `list_words` builds: each header followed by the lines of its rows. */
  method BuildListing(recent: seq<Entry>, random: seq<Entry>) returns (text: string)
    ensures text == Listing(recent, random)
  {
    text := AppendLines(LatestHeader, recent);
    text := AppendLines(text + RandomHeader, random);
  }

  // ---------------------------------------------------------------- the session

  /** The text a handler works on: the message text, or `""` when there is none, stripped. */
  function Received(message: Option<string>): string {
    Strip(message.GetOr(""))
  }

  /**
   * One user's session. An absent `quiz_pool` is the empty pool and an absent
   * `quiz_index` is 0, which is how the quiz engine reads them. Each handler
   * returns, as a ghost value, the replies it appended to the outbox.
   */
  class Conversation {
    var mode: Mode
    var answer: Option<string>
    var quizPool: seq<Pair>
    var quizIndex: nat
    var outbox: seq<Reply>

    /** The quiz cursor never passes the end of the pool. */
    ghost predicate Valid()
      reads this
    {
      quizIndex <= |quizPool|
    }

    /** A fresh `user_data`: no key set, nothing sent. */
    constructor ()
      ensures Valid()
      ensures mode == Idle && answer == None && quizPool == [] && quizIndex == 0 && outbox == []
    {
      mode, answer, quizPool, quizIndex, outbox := Idle, None, [], 0, [];
    }

    /** The quiz keys (`answer`, `quiz_pool`, `quiz_index`) are as they were. */
    twostate predicate QuizUnchanged()
      reads this
    {
      answer == old(answer) && quizPool == old(quizPool) && quizIndex == old(quizIndex)
    }

    /**
     * `safe_reply`: try to send `text`. On `Forbidden` the mode is cleared;
     * no other failure changes the session. Returns whether it was delivered.
     */
    method SafeReply(text: string) returns (delivered: bool, ghost reply: Reply)
      requires Valid()
      modifies this`mode, this`outbox
      ensures Valid()
      ensures outbox == old(outbox) + [reply] && reply.text == text
      ensures delivered <==> reply.delivery == Delivered
      ensures mode == ModeAfter(old(mode), [reply])
    {
      var d: Delivery :| true;
      outbox := outbox + [Reply(text, d)];
      reply := Reply(text, d);
      delivered := d == Delivered;
      if d == Forbidden {
        mode := Idle;
      }
      assert [reply][..0] == [];
      assert Blocked([reply]) <==> d == Forbidden;
    }

    /**
     * The row `_ask_quiz_question` asks about: the one under the cursor, which
     * advances by exactly one, or once the pool is used up a random row of the
     * store, with the cursor left where it is.
     */
    method NextRow(store: Store) returns (next: Option<Pair>)
      requires Valid()
      modifies this`quizIndex
      ensures Valid()
      ensures old(quizIndex) < |quizPool| ==> next == Some(quizPool[old(quizIndex)]) && quizIndex == old(quizIndex) + 1
      ensures old(quizIndex) >= |quizPool| ==> quizIndex == old(quizIndex)
      ensures old(quizIndex) >= |quizPool| ==> (next.None? <==> store.rows == []) && (next.Some? ==> next.value in Pairs(store.rows))
    {
      if quizPool != [] && quizIndex < |quizPool| {
        next := Some(quizPool[quizIndex]);
        quizIndex := quizIndex + 1;
      } else {
        next := store.RandomWord();
      }
    }

    /**
     * `_ask_quiz_question`: take the next row, store the normalised expected
     * answer and send the question. With no row at all it says so, clears the
     * mode and reports failure, leaving the pending answer as it was.
     */
    method AskQuizQuestion(store: Store, askMeaning: bool) returns (ok: bool, ghost row: Pair, ghost reply: Reply)
      requires Valid()
      modifies this`mode, this`answer, this`quizIndex, this`outbox
      ensures Valid() && quizPool == old(quizPool) && outbox == old(outbox) + [reply]
      ensures old(quizIndex) < |quizPool| ==> ok && row == quizPool[old(quizIndex)] && quizIndex == old(quizIndex) + 1
      ensures old(quizIndex) >= |quizPool| ==> quizIndex == old(quizIndex) && (ok <==> store.rows != []) && (ok ==> row in Pairs(store.rows))
      ensures ok ==> answer == Some(ExpectedAnswer(row, askMeaning)) && reply.text == QuestionText(row, askMeaning)
      ensures ok ==> mode == ModeAfter(old(mode), [reply])
      ensures !ok ==> answer == old(answer) && reply.text == NoWords && mode == Idle
    {
      var next := NextRow(store);
      if next.None? {
        var _, r := SafeReply(NoWords);
        mode := Idle;
        return false, Pair("", ""), r;
      }
      var picked := next.value;
      row := picked;
      answer := Some(ExpectedAnswer(picked, askMeaning));
      var _, r := SafeReply(QuestionText(picked, askMeaning));
      reply := r;
      ok := true;
    }

    /** `start`: send the greeting. */
    method Start() returns (ghost replies: seq<Reply>)
      requires Valid()
      modifies this`mode, this`outbox
      ensures Valid() && outbox == old(outbox) + replies && TextsOf(replies) == [StartText]
      ensures mode == ModeAfter(old(mode), replies)
    {
      var _, r := SafeReply(StartText);
      replies := [r];
    }

    /**
     * The add logic of `add` and of add mode: with at least two tokens append
     * the row they describe and confirm it; otherwise reply with `usage` and
     * add nothing.
     */
    method AddParts(store: Store, parts: seq<string>, usage: string) returns (ghost replies: seq<Reply>)
      requires Valid()
      modifies this`mode, this`outbox, store
      ensures Valid() && outbox == old(outbox) + replies
      ensures |parts| < 2 ==> store.rows == old(store.rows) && TextsOf(replies) == [usage]
      ensures |parts| >= 2 ==> store.rows == old(store.rows) + [Entry(parts[0], parts[1], JoinSpace(parts[2..]))]
      ensures |parts| >= 2 ==> TextsOf(replies) == [AddedText(parts[0], parts[1])]
      ensures mode == ModeAfter(old(mode), replies)
    {
      var entry := ParseEntry(parts);
      if entry.None? {
        var _, r := SafeReply(usage);
        return [r];
      }
      var e := entry.value;
      store.AddWord(e.korean, e.english, e.example);
      var _, r := SafeReply(AddedText(e.korean, e.english));
      replies := [r];
    }

    /** `add`, the `/add` command: the add logic on the command's arguments, whatever the mode. */
    method AddCommand(store: Store, args: seq<string>) returns (ghost replies: seq<Reply>)
      requires Valid()
      modifies this`mode, this`outbox, store
      ensures Valid() && outbox == old(outbox) + replies
      ensures |args| < 2 ==> store.rows == old(store.rows) && TextsOf(replies) == [CommandUsage]
      ensures |args| >= 2 ==> store.rows == old(store.rows) + [Entry(args[0], args[1], JoinSpace(args[2..]))]
      ensures |args| >= 2 ==> TextsOf(replies) == [AddedText(args[0], args[1])]
      ensures mode == ModeAfter(old(mode), replies)
    {
      replies := AddParts(store, args, CommandUsage);
    }

    /** `list_words`: one reply listing the newest rows and a random sample of rows. */
    method ListWords(store: Store) returns (ghost replies: seq<Reply>, ghost sample: seq<Entry>)
      requires Valid()
      modifies this`mode, this`outbox
      ensures Valid() && outbox == old(outbox) + replies
      ensures IsSample(sample, store.rows, RandomLimit)
      ensures TextsOf(replies) == [Listing(Newest(store.rows, RecentLimit), sample)]
      ensures mode == ModeAfter(old(mode), replies)
    {
      var recent := store.RecentWords(RecentLimit);
      var random := store.RandomWords(RandomLimit);
      var text := BuildListing(recent, random);
      var _, r := SafeReply(text);
      replies, sample := [r], random;
    }

    /** `stop`, the `/stop` command: clear the mode and the pending answer, then say so. */
    method StopCommand() returns (ghost replies: seq<Reply>)
      requires Valid()
      modifies this`mode, this`answer, this`outbox
      ensures Valid() && outbox == old(outbox) + replies && TextsOf(replies) == [StopCommandText]
      ensures mode == Idle && answer == None
    {
      mode := Idle;
      answer := None;
      var _, r := SafeReply(StopCommandText);
      replies := [r];
    }

    /** The Add button: enter add mode and send the instructions. */
    method PressAdd() returns (ghost replies: seq<Reply>)
      requires Valid()
      modifies this`mode, this`outbox
      ensures Valid() && outbox == old(outbox) + replies && TextsOf(replies) == [AddModeOn]
      ensures mode == ModeAfter(Adding, replies)
    {
      mode := Adding;
      var _, r := SafeReply(AddModeOn);
      replies := [r];
    }

    /** The Stop button: clear the mode and the pending answer, then say so. */
    method PressStop() returns (ghost replies: seq<Reply>)
      requires Valid()
      modifies this`mode, this`answer, this`outbox
      ensures Valid() && outbox == old(outbox) + replies && TextsOf(replies) == [Stopped]
      ensures mode == Idle && answer == None
    {
      mode := Idle;
      answer := None;
      var _, r := SafeReply(Stopped);
      replies := [r];
    }

    /**
     * The preload step of the Quiz button: a fresh random sample of the
     * store becomes the pool and the cursor goes back to its start. The pool
     * is empty exactly when the store is.
     */
    method LoadQuizPool(store: Store)
      modifies this`quizPool, this`quizIndex
      ensures Valid() && quizIndex == 0
      ensures IsSample(quizPool, Pairs(store.rows), QuizPoolSize)
      ensures quizPool == [] <==> store.rows == []
    {
      var pool := store.RandomQuizPool(QuizPoolSize);
      quizPool := pool;
      quizIndex := 0;
      SampleEmpty(pool, Pairs(store.rows), QuizPoolSize);
    }

    /**
     * The Quiz button: enter quiz mode, replace the pool by a fresh sample of
     * the store with the cursor at its start, and ask the first question. An
     * empty store leaves nothing to ask and the mode absent.
     */
    method PressQuiz(store: Store, askMeaning: bool) returns (ghost replies: seq<Reply>)
      requires Valid()
      modifies this`mode, this`answer, this`quizPool, this`quizIndex, this`outbox
      ensures Valid() && outbox == old(outbox) + replies
      ensures IsSample(quizPool, Pairs(store.rows), QuizPoolSize)
      ensures store.rows == [] ==> quizIndex == 0 && answer == old(answer) && TextsOf(replies) == [QuizModeOn, NoWords] && mode == Idle
      ensures store.rows != [] ==> quizIndex == 1 && answer == Some(ExpectedAnswer(quizPool[0], askMeaning))
      ensures store.rows != [] ==> TextsOf(replies) == [QuizModeOn, QuestionText(quizPool[0], askMeaning)]
      ensures store.rows != [] ==> mode == ModeAfter(Quizzing, replies)
    {
      mode := Quizzing;
      var _, first := SafeReply(QuizModeOn);
      LoadQuizPool(store);
      var ok, row, second := AskQuizQuestion(store, askMeaning);
      replies := [first, second];
      assert [first] + [second] == replies;
      if !ok {
        assert store.rows == [];
        mode := Idle;
      } else {
        assert quizIndex == 1 && row == quizPool[0];
        ModeAfterAppend(Quizzing, [first], second);
      }
    }

    /**
     * The next question after an answer, as `_ask_quiz_question` asks it in
     * `reply`, the last of `replies`: the row under the cursor, or a random
     * row of the store once the pool is used up, or none when the store is
     * empty too, in which case the pending answer stays and the mode is
     * cleared.
     */
    twostate predicate AskedNext(store: Store, askMeaning: bool, reply: Reply, replies: seq<Reply>)
      reads this, store
    {
      if old(quizIndex) < |quizPool| then
        var row := quizPool[old(quizIndex)];
        quizIndex == old(quizIndex) + 1 && answer == Some(ExpectedAnswer(row, askMeaning)) &&
        reply.text == QuestionText(row, askMeaning) && mode == ModeAfter(Quizzing, replies)
      else
        quizIndex == old(quizIndex) &&
        (store.rows == [] ==> answer == old(answer) && reply.text == NoWords && mode == Idle) &&
        (store.rows != [] ==> exists row :: row in Pairs(store.rows) && answer == Some(ExpectedAnswer(row, askMeaning)) &&
                                           reply.text == QuestionText(row, askMeaning) && mode == ModeAfter(Quizzing, replies))
    }

    /**
     * Text received in quiz mode: with no pending answer, say so and change
     * nothing; otherwise grade the text against the pending answer and ask
     * the next question.
     */
    method AnswerQuiz(store: Store, text: string, askMeaning: bool) returns (ghost replies: seq<Reply>)
      requires Valid() && mode == Quizzing
      modifies this`mode, this`answer, this`quizIndex, this`outbox
      ensures Valid() && quizPool == old(quizPool) && outbox == old(outbox) + replies
      ensures old(answer).None? ==> QuizUnchanged() && TextsOf(replies) == [NoActiveQuestion] && mode == ModeAfter(Quizzing, replies)
      ensures old(answer).Some? ==> |replies| == 2 && replies[0].text == Verdict(text, old(answer).value)
      ensures old(answer).Some? ==> AskedNext(store, askMeaning, replies[1], replies)
    {
      var correct := answer;
      if correct.None? {
        var _, r := SafeReply(NoActiveQuestion);
        return [r];
      }
      var _, first := SafeReply(Verdict(text, correct.value));
      var ok, row, second := AskQuizQuestion(store, askMeaning);
      if !ok {
        mode := Idle;
      }
      replies := [first, second];
      assert [first] + [second] == replies;
      ModeAfterAppend(Quizzing, [first], second);
    }

    /**
     * `handle_message`: the four buttons first, whatever the mode; then add
     * mode adds a word, quiz mode grades an answer, and with no mode the user
     * is asked to press a button.
     */
    method HandleMessage(store: Store, message: Option<string>, askMeaning: bool) returns (ghost replies: seq<Reply>)
      requires Valid()
      modifies this, store
      ensures Valid() && outbox == old(outbox) + replies
      ensures Received(message) == BtnAdd ==>
        mode == ModeAfter(Adding, replies) && QuizUnchanged() && store.rows == old(store.rows) && TextsOf(replies) == [AddModeOn]
      ensures Received(message) == BtnList ==>
        mode == ModeAfter(old(mode), replies) && QuizUnchanged() && store.rows == old(store.rows) &&
        exists sample :: IsSample(sample, store.rows, RandomLimit) && TextsOf(replies) == [Listing(Newest(store.rows, RecentLimit), sample)]
      ensures Received(message) == BtnQuiz ==>
        store.rows == old(store.rows) && IsSample(quizPool, Pairs(store.rows), QuizPoolSize) &&
        (store.rows == [] ==> quizIndex == 0 && answer == old(answer) && TextsOf(replies) == [QuizModeOn, NoWords] && mode == Idle) &&
        (store.rows != [] ==> quizIndex == 1 && answer == Some(ExpectedAnswer(quizPool[0], askMeaning)) &&
                              TextsOf(replies) == [QuizModeOn, QuestionText(quizPool[0], askMeaning)] && mode == ModeAfter(Quizzing, replies))
      ensures Received(message) == BtnStop ==>
        mode == Idle && answer == None && quizPool == old(quizPool) && quizIndex == old(quizIndex) &&
        store.rows == old(store.rows) && TextsOf(replies) == [Stopped]
      ensures !IsButton(Received(message)) && old(mode) == Adding ==>
        var parts := Split(Received(message));
        QuizUnchanged() && mode == ModeAfter(Adding, replies) &&
        (|parts| < 2 ==> store.rows == old(store.rows) && TextsOf(replies) == [AddModeUsage]) &&
        (|parts| >= 2 ==> store.rows == old(store.rows) + [Entry(parts[0], parts[1], JoinSpace(parts[2..]))] &&
                          TextsOf(replies) == [AddedText(parts[0], parts[1])])
      ensures !IsButton(Received(message)) && old(mode) == Quizzing && old(answer).None? ==>
        QuizUnchanged() && store.rows == old(store.rows) && TextsOf(replies) == [NoActiveQuestion] && mode == ModeAfter(Quizzing, replies)
      ensures !IsButton(Received(message)) && old(mode) == Quizzing && old(answer).Some? ==>
        store.rows == old(store.rows) && quizPool == old(quizPool) &&
        |replies| == 2 && replies[0].text == Verdict(Received(message), old(answer).value) && AskedNext(store, askMeaning, replies[1], replies)
      ensures !IsButton(Received(message)) && old(mode) == Idle ==>
        mode == Idle && QuizUnchanged() && store.rows == old(store.rows) && TextsOf(replies) == [ChooseButton]
    {
      var text := Received(message);
      if text == BtnAdd {
        replies := PressAdd();
        return;
      }
      if text == BtnList {
        ghost var sample;
        replies, sample := ListWords(store);
        return;
      }
      if text == BtnQuiz {
        replies := PressQuiz(store, askMeaning);
        return;
      }
      if text == BtnStop {
        replies := PressStop();
        return;
      }
      if mode == Adding {
        replies := AddParts(store, Split(text), AddModeUsage);
        return;
      }
      if mode == Quizzing {
        replies := AnswerQuiz(store, text, askMeaning);
        return;
      }
      var _, r := SafeReply(ChooseButton);
      replies := [r];
    }
  }
}
