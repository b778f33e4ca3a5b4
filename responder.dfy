/** The rule-based reply selector of the chat widget: generateBotResponse in
    page.tsx. It lower-cases the message and tries six keyword groups in a
    fixed order; the first group whose keyword occurs decides the reply.
    The model separates the decision (which group, or none) from the text
    of the reply, so that the selection rule is stated on the decision. */
module Responder {
  import opened Text

  /** The keyword groups, one per canned reply. */
  datatype Topic = Greeting | Alcohol | Seatbelt | Speed | Phone | Fatigue

  /** The branch of the if-chain that answers: a group's reply, or the
      fallback when no group matched. */
  datatype Choice = Answer(topic: Topic) | Fallback

  /** The order in which the groups are tried. */
  const Priority: seq<Topic> := [Greeting, Alcohol, Seatbelt, Speed, Phone, Fatigue]

  /** The keywords of each group, in the order the source tests them. */
  function Keywords(t: Topic): seq<string> {
    match t
    case Greeting => ["xin chào", "hello"]
    case Alcohol => ["nồng độ cồn", "say rượu"]
    case Seatbelt => ["dây an toàn", "seatbelt"]
    case Speed => ["tốc độ"]
    case Phone => ["điện thoại", "phone"]
    case Fatigue => ["mệt", "buồn ngủ"]
  }

  /** The eleven keywords of all groups together. */
  const AllKeywords: seq<string> :=
    Keywords(Greeting) + Keywords(Alcohol) + Keywords(Seatbelt) +
    Keywords(Speed) + Keywords(Phone) + Keywords(Fatigue)

  /** The `||` of includes tests over a list of keywords, left to right. */
  function AnyIncluded(lower: string, keywords: seq<string>): bool
    decreases |keywords|
  {
    |keywords| > 0 && (Includes(lower, keywords[0]) || AnyIncluded(lower, keywords[1..]))
  }

  /** The test of one group in generateBotResponse. */
  function Mentions(lower: string, t: Topic): bool {
    AnyIncluded(lower, Keywords(t))
  }

  /** The if-chain of generateBotResponse on the lower-cased message: the
      first group in Priority that the message mentions, else the fallback. */
  function Choose(lowerMessage: string): Choice {
    if Mentions(lowerMessage, Greeting) then Answer(Greeting)
    else if Mentions(lowerMessage, Alcohol) then Answer(Alcohol)
    else if Mentions(lowerMessage, Seatbelt) then Answer(Seatbelt)
    else if Mentions(lowerMessage, Speed) then Answer(Speed)
    else if Mentions(lowerMessage, Phone) then Answer(Phone)
    else if Mentions(lowerMessage, Fatigue) then Answer(Fatigue)
    else Fallback
  }

  /** The canned replies, one per group, and the fallback that lists the
      topics the bot knows. */
  const GreetingReply: string := "Xin chào! Mình rất vui được gặp bạn. Mình có thể giúp bạn về lái xe an toàn, luật giao thông, hoặc bất kỳ câu hỏi nào về an toàn đường bộ. Bạn muốn biết về cái gì?"
  const AlcoholReply: string := "Rất quan trọng! Lái xe say rượu là rất nguy hiểm. Nếu bạn đã uống rượu, hãy gọi taxi hoặc nhờ người khác lái. Theo pháp luật, người lái có nồng độ cồn từ 0,05% trở lên sẽ bị phạt 16-20 triệu đồng và tước giấy phép 16-24 tháng."
  const SeatbeltReply: string := "Dây an toàn là thiết bị cứu mạng! Luôn thắt dây an toàn trước khi khởi động xe. Nó giảm nguy cơ tử vong đến 50%. Nhớ yêu cầu tất cả hành khách trên xe cũng thắt dây an toàn nhé!"
  const SpeedReply: string := "Tốc độ phù hợp rất quan trọng! Hãy tuân thủ biển báo giới hạn tốc độ và điều chỉnh tốc độ theo điều kiện đường bộ (mưa, đêm tối, khu dân cư...). Nhớ: không vội vàng, đến nơi an toàn là mục tiêu!"
  const PhoneReply: string := "Tuyệt đối không sử dụng điện thoại khi lái xe! Điều này rất nguy hiểm vì nó làm mất tập trung. Nếu cần, hãy dừng xe an toàn rồi trả lời. Người vi phạm sẽ bị phạt 100.000 - 200.000 đồng."
  const FatigueReply: string := "Nếu bạn cảm thấy mệt, hãy dừng xe lại! Nghỉ ngơi 15-20 phút là rất cần thiết. Không bao giờ lái xe khi mệt, vì thời gian phản ứng sẽ chậm hơn. An toàn của bạn và người khác là ưu tiên hàng đầu!"
  const FallbackReply: string := "Cảm ơn câu hỏi của bạn! Tôi có thể giúp bạn về: luật giao thông, mẹo lái xe an toàn, quy tắc giao thông, và những điều cần chú ý khi lái xe. Bạn có thể hỏi cụ thể hơn nhé!"

  /** The string each branch returns. */
  function ReplyText(c: Choice): string {
    match c
    case Answer(Greeting) => GreetingReply
    case Answer(Alcohol) => AlcoholReply
    case Answer(Seatbelt) => SeatbeltReply
    case Answer(Speed) => SpeedReply
    case Answer(Phone) => PhoneReply
    case Answer(Fatigue) => FatigueReply
    case Fallback => FallbackReply
  }

  /** generateBotResponse: lower-case the message once, run the if-chain on
      it, and return the string of the branch taken. */
  function GenerateBotResponse(userMessage: string): string {
    var lowerMessage := Lower(userMessage);
    ReplyText(Choose(lowerMessage))
  }

  /** The seven strings are pairwise different and none is empty, so the
      reply tells which branch was taken. */
  lemma ReplyTextInjective(a: Choice, b: Choice)
    ensures ReplyText(a) == ReplyText(b) <==> a == b
    ensures |ReplyText(a)| > 0
  {
    assert |GreetingReply| == 163 && |AlcoholReply| == 226 && |SeatbeltReply| == 177;
    assert |SpeedReply| == 194 && |PhoneReply| == 185 && |FatigueReply| == 193;
    assert |FallbackReply| == 171;
  }

  // ---------------------------------------------------------------------
  // The selection rule, stated over substring occurrence
  // ---------------------------------------------------------------------

  /** Some keyword of group t occurs in the lower-cased text. */
  ghost predicate Matches(lower: string, t: Topic) {
    exists i :: 0 <= i < |Keywords(t)| && Contains(lower, Keywords(t)[i])
  }

  /** The chain of includes tests over a keyword list succeeds exactly when
      one of the keywords occurs. */
  lemma {:induction false} AnyIncludedIff(lower: string, keywords: seq<string>)
    ensures AnyIncluded(lower, keywords) <==>
            exists i :: 0 <= i < |keywords| && Contains(lower, keywords[i])
    decreases |keywords|
  {
    if |keywords| > 0 {
      IncludesIff(lower, keywords[0]);
      AnyIncludedIff(lower, keywords[1..]);
      if exists i :: 0 <= i < |keywords| && Contains(lower, keywords[i]) {
        var i :| 0 <= i < |keywords| && Contains(lower, keywords[i]);
        if i > 0 {
          assert keywords[1..][i - 1] == keywords[i];
        }
      }
      if exists i :: 0 <= i < |keywords[1..]| && Contains(lower, keywords[1..][i]) {
        var i :| 0 <= i < |keywords[1..]| && Contains(lower, keywords[1..][i]);
        assert keywords[i + 1] == keywords[1..][i];
      }
    }
  }

  /** The test of one group succeeds exactly when one of its keywords occurs. */
  lemma MentionsIff(lower: string, t: Topic)
    ensures Mentions(lower, t) <==> Matches(lower, t)
  {
    AnyIncludedIff(lower, Keywords(t));
  }

  /** The reference rule: the position in Priority, from position `from` on,
      of the first group the text mentions, or |Priority| when there is none. */
  function FirstMentioned(lower: string, from: nat): (n: nat)
    requires from <= |Priority|
    ensures from <= n <= |Priority|
    ensures n < |Priority| ==> Mentions(lower, Priority[n])
    ensures forall j :: from <= j < n ==> !Mentions(lower, Priority[j])
    decreases |Priority| - from
  {
    if from == |Priority| then from
    else if Mentions(lower, Priority[from]) then from
    else FirstMentioned(lower, from + 1)
  }

  /** The branch for a position in Priority; past the end, the fallback. */
  function ChoiceAt(n: nat): Choice {
    if n < |Priority| then Answer(Priority[n]) else Fallback
  }

  /** The if-chain follows the reference rule: it answers with the group at
      the position of the first group mentioned. */
  lemma ChooseIsFirstMentioned(lower: string)
    ensures Choose(lower) == ChoiceAt(FirstMentioned(lower, 0))
  {
    var m := FirstMentioned(lower, 0);
    if Mentions(lower, Greeting) {
      assert m == 0 by { assert Priority[0] == Greeting; }
    } else if Mentions(lower, Alcohol) {
      assert m == 1 by { assert Priority[0] == Greeting && Priority[1] == Alcohol; }
    } else if Mentions(lower, Seatbelt) {
      assert m == 2 by { assert Priority[..3] == [Greeting, Alcohol, Seatbelt]; }
    } else if Mentions(lower, Speed) {
      assert m == 3 by { assert Priority[..4] == [Greeting, Alcohol, Seatbelt, Speed]; }
    } else if Mentions(lower, Phone) {
      assert m == 4 by { assert Priority[..5] == [Greeting, Alcohol, Seatbelt, Speed, Phone]; }
    } else if Mentions(lower, Fatigue) {
      assert m == 5;
    } else {
      assert m == 6;
    }
  }

  /** First match wins, on the branch: group n of Priority answers exactly
      when it matches and no earlier group does. */
  lemma ChooseFirstMatch(lower: string, n: nat)
    requires n < |Priority|
    ensures Choose(lower) == Answer(Priority[n]) <==>
            Matches(lower, Priority[n]) && forall j :: 0 <= j < n ==> !Matches(lower, Priority[j])
  {
    var m := FirstMentioned(lower, 0);
    ChooseIsFirstMentioned(lower);
    forall j | 0 <= j < |Priority| ensures Mentions(lower, Priority[j]) <==> Matches(lower, Priority[j]) {
      MentionsIff(lower, Priority[j]);
    }
    assert forall i, j :: 0 <= i < j < |Priority| ==> Priority[i] != Priority[j];
    if m != n {
      if m < n {
        assert Mentions(lower, Priority[m]);
      } else {
        assert !Mentions(lower, Priority[n]);
      }
    }
  }

  /** The fallback branch is taken exactly when none of the eleven keywords
      occurs. */
  lemma ChooseFallback(lower: string)
    ensures Choose(lower) == Fallback <==>
            forall i :: 0 <= i < |AllKeywords| ==> !Contains(lower, AllKeywords[i])
  {
    forall t: Topic ensures Mentions(lower, t) <==> Matches(lower, t) {
      MentionsIff(lower, t);
    }
    var found := exists i :: 0 <= i < |AllKeywords| && Contains(lower, AllKeywords[i]);
    assert found <==> (exists t: Topic :: Matches(lower, t)) by {
      if found {
        var i :| 0 <= i < |AllKeywords| && Contains(lower, AllKeywords[i]);
        var t := if i < 2 then Greeting else if i < 4 then Alcohol else if i < 6 then Seatbelt
                 else if i < 7 then Speed else if i < 9 then Phone else Fatigue;
        var base := if i < 2 then 0 else if i < 4 then 2 else if i < 6 then 4
                    else if i < 7 then 6 else if i < 9 then 7 else 9;
        assert AllKeywords[i] == Keywords(t)[i - base];
        assert Matches(lower, t);
      }
      if exists t: Topic :: Matches(lower, t) {
        var t: Topic :| Matches(lower, t);
        var k :| 0 <= k < |Keywords(t)| && Contains(lower, Keywords(t)[k]);
        var base := match t
          case Greeting => 0 case Alcohol => 2 case Seatbelt => 4
          case Speed => 6 case Phone => 7 case Fatigue => 9;
        assert AllKeywords[base + k] == Keywords(t)[k];
      }
    }
    if Choose(lower) != Fallback {
      assert exists t: Topic :: Mentions(lower, t);
    }
  }

  /** A text containing "xin chào" or "hello" gets the greeting branch,
      whatever other keywords it holds. */
  lemma ChooseGreetingFirst(lower: string)
    requires Contains(lower, "xin chào") || Contains(lower, "hello")
    ensures Choose(lower) == Answer(Greeting)
  {
    assert Keywords(Greeting)[0] == "xin chào" && Keywords(Greeting)[1] == "hello";
    MentionsIff(lower, Greeting);
  }

  // ---------------------------------------------------------------------
  // The rule, stated on the reply string
  // ---------------------------------------------------------------------

  /** First match wins: the reply of the group at position n of Priority is
      returned exactly when that group matches and no earlier group does. */
  lemma FirstMatchWins(userMessage: string, n: nat)
    requires n < |Priority|
    ensures GenerateBotResponse(userMessage) == ReplyText(Answer(Priority[n])) <==>
            Matches(Lower(userMessage), Priority[n]) &&
            forall j :: 0 <= j < n ==> !Matches(Lower(userMessage), Priority[j])
  {
    ChooseFirstMatch(Lower(userMessage), n);
    ReplyTextInjective(Choose(Lower(userMessage)), Answer(Priority[n]));
  }

  /** The fallback is returned exactly when none of the eleven keywords
      occurs in the lower-cased message. */
  lemma FallbackExactly(userMessage: string)
    ensures GenerateBotResponse(userMessage) == FallbackReply <==>
            forall i :: 0 <= i < |AllKeywords| ==> !Contains(Lower(userMessage), AllKeywords[i])
  {
    ChooseFallback(Lower(userMessage));
    ReplyTextInjective(Choose(Lower(userMessage)), Fallback);
  }

  /** A message whose lower case contains "xin chào" or "hello" gets the
      greeting, whatever other keywords it holds. */
  lemma GreetingFirst(userMessage: string)
    requires Contains(Lower(userMessage), "xin chào") || Contains(Lower(userMessage), "hello")
    ensures GenerateBotResponse(userMessage) == GreetingReply
  {
    ChooseGreetingFirst(Lower(userMessage));
  }

  /** The reply ignores letter case: an already lower-cased message gets the
      same reply as the original. */
  lemma CaseInsensitive(userMessage: string)
    ensures GenerateBotResponse(Lower(userMessage)) == GenerateBotResponse(userMessage)
  {
    LowerIdempotent(userMessage);
  }

  /** The reply is never the empty string. */
  lemma ReplyNonEmpty(userMessage: string)
    ensures |GenerateBotResponse(userMessage)| > 0
  {
    ReplyTextInjective(Choose(Lower(userMessage)), Fallback);
  }

  // ---------------------------------------------------------------------
  // Worked examples
  // ---------------------------------------------------------------------

  /** A character of sub that does not occur in s rules out sub occurring in s. */
  lemma MissingChar(s: string, sub: string, c: char)
    requires c in sub && c !in s
    ensures !Contains(s, sub)
  {
    var k :| 0 <= k < |sub| && sub[k] == c;
    forall i | 0 <= i && i + |sub| <= |s| ensures !OccursAt(s, sub, i) {
      assert s[i..i + |sub|][k] == s[i + k];
    }
  }

  /** "xin chào, tôi say rượu" is its own lower case and starts with the
      greeting keyword. */
  lemma GreetingBeforeAlcoholExampleMatches(s: string)
    requires s == "xin chào, tôi say rượu"
    ensures Contains(Lower(s), "xin chào")
  {
    LowerOfLowerCase(s);
    assert OccursAt(s, "xin chào", 0);
  }

  /** Greeting wins over alcohol in "xin chào, tôi say rượu". */
  lemma GreetingBeforeAlcoholExample(s: string)
    requires s == "xin chào, tôi say rượu"
    ensures GenerateBotResponse(s) == GreetingReply
  {
    GreetingBeforeAlcoholExampleMatches(s);
    GreetingFirst(s);
  }

  /** "XIN CHÀO" lower-cases to the greeting keyword. */
  lemma UpperCaseGreetingExampleMatches(s: string)
    requires s == "XIN CHÀO"
    ensures Contains(Lower(s), "xin chào")
  {
    assert Lower(s) == "xin chào";
    assert OccursAt(Lower(s), "xin chào", 0);
  }

  /** Upper-case input is matched too: "XIN CHÀO" gets the greeting. */
  lemma UpperCaseGreetingExample(s: string)
    requires s == "XIN CHÀO"
    ensures GenerateBotResponse(s) == GreetingReply
  {
    UpperCaseGreetingExampleMatches(s);
    GreetingFirst(s);
  }

  /** "nồng độ cồn" is already lower case, mentions alcohol and no greeting. */
  lemma AlcoholExampleMatches(s: string)
    requires s == "nồng độ cồn"
    ensures Matches(Lower(s), Alcohol) && !Matches(Lower(s), Greeting)
  {
    LowerOfLowerCase(s);
    MissingChar(s, "xin chào", 'x');
    MissingChar(s, "hello", 'h');
    assert OccursAt(s, "nồng độ cồn", 0);
    assert Keywords(Alcohol)[0] == "nồng độ cồn";
  }

  /** "nồng độ cồn" gets the alcohol reply. */
  lemma AlcoholExample(s: string)
    requires s == "nồng độ cồn"
    ensures GenerateBotResponse(s) == AlcoholReply
  {
    AlcoholExampleMatches(s);
    FirstMatchWins(s, 1);
  }

  /** "say rượu rồi tăng tốc độ" mentions alcohol but no greeting. */
  lemma AlcoholBeforeSpeedExampleMatches(s: string)
    requires s == "say rượu rồi tăng tốc độ"
    ensures Matches(Lower(s), Alcohol) && !Matches(Lower(s), Greeting)
  {
    LowerOfLowerCase(s);
    MissingChar(s, "xin chào", 'x');
    MissingChar(s, "hello", 'h');
    assert OccursAt(s, "say rượu", 0);
    assert Keywords(Alcohol)[1] == "say rượu";
  }

  /** "say rượu rồi tăng tốc độ" mentions speed as well. */
  lemma AlcoholBeforeSpeedExampleSpeed(s: string)
    requires s == "say rượu rồi tăng tốc độ"
    ensures Matches(Lower(s), Speed)
  {
    LowerOfLowerCase(s);
    assert OccursAt(s, "tốc độ", 18);
    assert Keywords(Speed)[0] == "tốc độ";
  }

  /** Alcohol wins over speed in "say rượu rồi tăng tốc độ". */
  lemma AlcoholBeforeSpeedExample(s: string)
    requires s == "say rượu rồi tăng tốc độ"
    ensures Matches(Lower(s), Speed)
    ensures GenerateBotResponse(s) == AlcoholReply
  {
    AlcoholBeforeSpeedExampleMatches(s);
    AlcoholBeforeSpeedExampleSpeed(s);
    FirstMatchWins(s, 1);
  }

  /** "hôm nay trời đẹp" holds none of the eleven keywords: each of them has a
      letter that the sentence lacks. */
  lemma FallbackExampleMatchesNothing(s: string)
    requires s == "hôm nay trời đẹp"
    ensures forall i :: 0 <= i < |AllKeywords| ==> !Contains(Lower(s), AllKeywords[i])
  {
    LowerOfLowerCase(s);
    var ks := ["xin chào", "hello", "nồng độ cồn", "say rượu", "dây an toàn",
               "seatbelt", "tốc độ", "điện thoại", "phone", "mệt", "buồn ngủ"];
    var missing := ['x', 'l', 'ồ', 's', 'â', 's', 'ố', 'ệ', 'e', 'ệ', 'b'];
    assert AllKeywords == ks;
    forall i | 0 <= i < |ks| ensures !Contains(s, ks[i]) {
      assert missing[i] in ks[i] && missing[i] !in s by {
        if i < 4 {
        } else if i < 8 {
        } else {
        }
      }
      MissingChar(s, ks[i], missing[i]);
    }
  }

  /** "hôm nay trời đẹp" mentions no keyword and gets the fallback. */
  lemma FallbackExample(s: string)
    requires s == "hôm nay trời đẹp"
    ensures GenerateBotResponse(s) == FallbackReply
  {
    FallbackExampleMatchesNothing(s);
    FallbackExactly(s);
  }
}
