/** The error codes of the MQTT library (lib/mqtt/mqtt.h). */
module MqttErrors {
  const INT_MIN: int := -0x8000_0000
  const OK: int := 1
  const NULLPTR: int := INT_MIN + 1
  const CONTROL_FORBIDDEN_TYPE: int := INT_MIN + 2
  const CONTROL_INVALID_FLAGS: int := INT_MIN + 3
  const CLIENT_ID_REFUSED: int := INT_MIN + 5
  const CONNACK_FORBIDDEN_FLAGS: int := INT_MIN + 8
  const CONNACK_FORBIDDEN_CODE: int := INT_MIN + 9
  const PUBLISH_FORBIDDEN_QOS: int := INT_MIN + 10
  const MALFORMED_RESPONSE: int := INT_MIN + 12
  const RESPONSE_INVALID_CONTROL_TYPE: int := INT_MIN + 14
  const CONNECT_NOT_CALLED: int := INT_MIN + 15
  const SEND_BUFFER_IS_FULL: int := INT_MIN + 16
  const MALFORMED_REQUEST: int := INT_MIN + 18
  const ACK_OF_UNKNOWN: int := INT_MIN + 20
  const CONNECTION_REFUSED: int := INT_MIN + 22
  const SUBSCRIBE_FAILED: int := INT_MIN + 23
  const INVALID_REMAINING_LENGTH: int := INT_MIN + 26
}
