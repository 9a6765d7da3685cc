/**
 * The colour-pad mini-game: four fixed buttons, each press adding ten points
 * to a score shown as a four-character zero-padded read-out.
 */
module NeonRecall {
  import ScoreDisplay

  datatype Button = Button(id: string, baseColor: string, glowColor: string)

  /** Points awarded per press. */
  const PointsPerPress: nat := 10

  /** The `buttons` table. */
  const Buttons: seq<Button> := [
    Button("yellow", "#fde047", "rgba(253, 224, 71, 0.8)"),
    Button("green", "#4ade80", "rgba(74, 222, 128, 0.8)"),
    Button("pink", "#f472b6", "rgba(244, 114, 182, 0.8)"),
    Button("blue", "#22d3ee", "rgba(34, 211, 238, 0.8)")
  ]

  /** Four buttons with distinct ids. */
  lemma ButtonIdsDistinct()
    ensures |Buttons| == 4
    ensures forall i, j :: 0 <= i < j < |Buttons| ==> Buttons[i].id != Buttons[j].id
  {
  }

  class Game {
    var score: nat
    /** The ids pressed since the widget mounted, oldest first. */
    ghost var presses: seq<string>

    ghost predicate Valid()
      reads this
    {
      score == PointsPerPress * |presses|
    }

    constructor ()
      ensures Valid() && score == 0 && presses == []
    {
      score := 0;
      presses := [];
    }

    /** `handleButtonPress`: ten points, whichever id is pressed. */
    method HandleButtonPress(colorId: string)
      requires Valid()
      modifies this
      ensures Valid()
      ensures presses == old(presses) + [colorId]
      ensures score == old(score) + PointsPerPress
    {
      score := score + PointsPerPress;
      presses := presses + [colorId];
    }

    /** The score read-out. */
    function ScoreLabel(): (text: string)
      reads this
      ensures |text| == if |ScoreDisplay.ToDecimal(score)| >= ScoreDisplay.ScoreWidth
        then |ScoreDisplay.ToDecimal(score)| else ScoreDisplay.ScoreWidth
      ensures ScoreDisplay.AllDigits(text) && ScoreDisplay.ParseDecimal(text) == score
    {
      ScoreDisplay.ScoreText(score)
    }
  }

  /** Three presses from mount give a score of 30, read out as "0030". */
  method ThreePresses() {
    var game := new Game();
    game.HandleButtonPress(Buttons[0].id);
    game.HandleButtonPress(Buttons[2].id);
    game.HandleButtonPress(Buttons[2].id);
    assert game.score == 30;
    assert ScoreDisplay.ToDecimal(30) == "30";
    assert game.ScoreLabel() == "0030";
  }
}
