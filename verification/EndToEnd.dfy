/** Paths through several components: configuration text to the user's screen, and temperature to the speed reported. */
module EndToEnd {
  import opened Bytes
  import opened FandCfg
  import opened StrUtils
  import opened MatrixConfig
  import opened FanCurve
  import FanControl
  import Ipc
  import opened Server
  import opened Client

  /** The record after the parser stored these rows. */
  ghost predicate Holds(config: ConfigRecord, rows: seq<Row>) {
    && 1 <= |rows| < MAX_ROWS && AllInRange(rows)
    && |config.matrix| == 2 * MAX_ROWS && config.matrixRows == |rows|
    && config.matrix[..2 * |rows|] == RowCells(rows)
  }

  /** Canonical configuration text ends up in the record exactly as written. */
  method Configure(rows: seq<Row>) returns (status: int, config: FandConfig)
    ensures fresh(config) && fresh(config.matrix)
    ensures status == 0 <==> 1 <= |rows| < MAX_ROWS && AllInRange(rows)
    ensures status == 0 ==> Holds(config.Values(), rows)
  {
    hide Scan, Text, RowCells, RowInRange;
    config := new FandConfig();
    TextIsCString(rows, '(');
    TextIsSegments(rows);
    TextRoundTrip(rows);
    status := config.SetMatrix(Text(rows));
  }

  lemma TextIsSegments(rows: seq<Row>)
    ensures Text(rows) == Segments(rows, '(')
  {
  }

  lemma {:induction false} TextIsCString(rows: seq<Row>, lead: char)
    requires lead != NUL
    ensures IsCString(Segments(rows, lead))
    decreases |rows|
  {
    if rows != [] {
      NumberOfDecimal(rows[0].temp);
      NumberOfDecimal(rows[0].speed);
      DigitsAreCString(Decimal(rows[0].temp));
      DigitsAreCString(Decimal(rows[0].speed));
      TextIsCString(rows[1..], ';');
      hide Decimal, Number;
    }
  }

  lemma {:induction false} CellsOfRow(rows: seq<Row>, k: nat)
    requires AllInRange(rows) && k < |rows|
    ensures RowCells(rows)[2 * k] == rows[k].temp && RowCells(rows)[2 * k + 1] == rows[k].speed
  {
    if k > 0 {
      CellsOfRow(rows[1..], k - 1);
      assert RowCells(rows)[2..] == RowCells(rows[1..]);
    }
  }

  /** The parsed rows reach the controller: the first number of each is its temperature, the second its speed. */
  method ConfigureController(c: FanControl.Controller, config: ConfigRecord, rows: seq<Row>) returns (status: int)
    requires c.Valid() && Holds(config, rows)
    modifies c, c.temps, c.speeds
    ensures c.Valid() && status == 0 && c.rows == |rows| && c.readings == []
    ensures c.hysteresis == config.hysteresis && c.throttle == config.throttle
    ensures forall k :: 0 <= k < |rows| ==>
      c.Config().temps[k] == rows[k].temp && c.Config().speeds[k] == rows[k].speed
  {
    hide RowCells, FanControl.Run;
    status := c.Configure(config);
    forall k | 0 <= k < |rows|
      ensures c.Config().temps[k] == rows[k].temp && c.Config().speeds[k] == rows[k].speed
    {
      CellsOfRow(rows, k);
      assert config.matrix[..2 * |rows|][2 * k] == config.matrix[2 * k];
      assert config.matrix[..2 * |rows|][2 * k + 1] == config.matrix[2 * k + 1];
    }
  }

  /** A user who asks for the matrix is shown the rows of the configuration text. */
  lemma ConfiguredRowsAreShown(rows: seq<Row>, config: ConfigRecord, creds: Credentials, sensors: Sensors)
    requires Holds(config, rows) && Plausible(creds) && IntSensors(sensors)
    ensures Understood(REQ_MATRIX, Wire(AnswerTo(REQ_MATRIX, creds, sensors, config)))
      == ShownMatrix(|rows|, RowCells(rows))
  {
    hide *;
    MatrixAnswer(rows, config, creds, sensors);
    ClientUnderstandsServer(REQ_MATRIX, creds, sensors, config);
  }

  lemma MatrixAnswer(rows: seq<Row>, config: ConfigRecord, creds: Credentials, sensors: Sensors)
    requires Holds(config, rows)
    ensures REQ_MATRIX in VALID_REQUESTS && FitsMatrix(config) && config.matrixRows > 0
    ensures AnswerTo(REQ_MATRIX, creds, sensors, config) == Rows(|rows|, RowCells(rows))
    ensures Meaning(Rows(|rows|, RowCells(rows))) == ShownMatrix(|rows|, RowCells(rows))
  {
    hide RowCells;
    assert VALID_REQUESTS[3] == REQ_MATRIX;
  }

  /** The speed the controller sets is reported back to the user as itself or one percent less. */
  lemma ChosenSpeedIsShown(c: Controls, current: int, t: int, temp: int, creds: Credentials, config: ConfigRecord)
    requires WellFormed(c) && Nondecreasing(c.speeds) && -1 <= current < |c.temps|
    requires forall i :: 0 <= i < |c.speeds| ==> c.speeds[i] <= 100
    requires FitsMatrix(config) && config.matrixRows > 0 && Plausible(creds) && Ipc.IsInt(temp)
    ensures var p := FanControl.ChosenSpeed(c, current, t);
      var sensors := Sensors(SpeedFromPwm(PercentageToPwm(p)), temp);
      Understood(REQ_SPEED, Wire(AnswerTo(REQ_SPEED, creds, sensors, config)))
        == ShownSpeed(if 0 < 255 * p % 100 < 50 then p - 1 else p)
  {
    FanControl.ChosenPwmInRange(c, current, t);
    hide FanControl.ChosenSpeed, PercentageToPwm, SpeedFromPwm, Understood, Wire;
    var p := FanControl.ChosenSpeed(c, current, t);
    PwmReadsBack(p);
    SmallInt(SpeedFromPwm(PercentageToPwm(p)));
    assert VALID_REQUESTS[1] == REQ_SPEED;
    ClientUnderstandsServer(REQ_SPEED, creds, Sensors(SpeedFromPwm(PercentageToPwm(p)), temp), config);
  }

  /** A user who asks for speed or temperature is shown the measured value, or EAGAIN (11) if the sensor failed. */
  lemma MeasuredIsShown(creds: Credentials, sensors: Sensors, config: ConfigRecord)
    requires FitsMatrix(config) && config.matrixRows > 0 && Plausible(creds) && IntSensors(sensors)
    ensures Understood(33, Wire(AnswerTo(33, creds, sensors, config)))
      == if sensors.speed >= 0 then ShownSpeed(sensors.speed) else ShownErrno(11)
    ensures Understood(34, Wire(AnswerTo(34, creds, sensors, config)))
      == if sensors.temp >= 0 then ShownTemperature(sensors.temp) else ShownErrno(11)
  {
    assert VALID_REQUESTS[1] == 33 && VALID_REQUESTS[2] == 34;
    ClientUnderstandsServer(33, creds, sensors, config);
    ClientUnderstandsServer(34, creds, sensors, config);
    hide Understood, Wire;
  }

  /** From the raw values: failed reads are shown as EAGAIN, whole degrees and percent otherwise. */
  lemma RawValuesAreShown(pwm: int, raw: int, creds: Credentials, config: ConfigRecord)
    requires FitsMatrix(config) && config.matrixRows > 0 && Plausible(creds)
    requires pwm <= PWM_MAX && Ipc.IsInt(raw)
    ensures var sensors := Sensors(SpeedFromPwm(pwm), FanControl.Controller.Degrees(raw));
      && Understood(33, Wire(AnswerTo(33, creds, sensors, config)))
         == (if pwm < 0 then ShownErrno(11) else ShownSpeed(100 * pwm / 255))
      && Understood(34, Wire(AnswerTo(34, creds, sensors, config)))
         == (if raw < 0 then ShownErrno(11) else ShownTemperature(raw / 1000))
  {
    if pwm >= 0 {
      SpeedInIntegers(pwm);
      SmallInt(SpeedFromPwm(pwm));
    } else {
      FailedPwm(pwm);
    }
    FanControl.WholeDegrees(raw);
    NearerZero(raw, FanControl.Controller.Degrees(raw));
    hide SpeedFromPwm, FanControl.Controller.Degrees, Understood, Wire;
    MeasuredIsShown(creds, Sensors(SpeedFromPwm(pwm), FanControl.Controller.Degrees(raw)), config);
  }

  lemma FailedPwm(pwm: int)
    requires pwm < 0
    ensures SpeedFromPwm(pwm) < 0 && Ipc.IsInt(SpeedFromPwm(pwm))
  {
  }

  lemma NearerZero(v: int, w: int)
    requires Ipc.IsInt(v) && (if v < 0 then w == v else 0 <= w <= v)
    ensures Ipc.IsInt(w)
  {
  }

  lemma SmallInt(v: int)
    requires 0 <= v <= 100
    ensures Ipc.IsInt(v)
  {
  }
}
